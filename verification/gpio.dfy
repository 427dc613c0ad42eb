/** The GPIO driver (bsp_Gpio.c) and its interrupt dispatch
    (bsp_Gpio_tm4c123.c). A port is eight pins; every configuration call
    takes an 8-bit pin mask and sets or clears the mask's bits in the
    port's 32-bit control registers, leaving the other bits alone. The
    port control register holds a 4-bit function selector per pin, and is
    modelled as its eight selectors, pin 0 first. The handler table holds
    one optional callback per pin. */
module Gpio {
  const NUM_PINS: nat := 8

  /** BSP_GPIO_INT_TYPE_*. */
  const EDGE_RISING: nat := 0
  const EDGE_FALLING: nat := 1
  const EDGE_BOTH: nat := 2
  const LEVEL_LOW: nat := 3
  const LEVEL_HIGH: nat := 4

  /** BSP_GPIO_INT_CONTROL_ENABLE; any other value disables. */
  const INT_ENABLE: nat := 1

  /** BSP_GPIO_PULL_*. */
  const PULL_NONE: nat := 0
  const PULL_UP: nat := 1
  const PULL_DOWN: nat := 2

  /** BSP_GPIO_DRIVE_*; the 8 mA slew-rate-controlled and higher drives
      share the last branch. */
  const DRIVE_2MA: nat := 0
  const DRIVE_4MA: nat := 1
  const DRIVE_8MA: nat := 2

  /** A callback, by identity; None is NULL. */
  datatype Handler = None | Some(id: nat)

  /** The registers the driver touches, each as the set of pins whose bit
      is 1 (the driver's 8-bit masks never reach the upper 24 bits), and
      the handler table. */
  datatype Port = Port(
    den: set<nat>, amsel: set<nat>, afsel: set<nat>, pctl: seq<bv8>, dir: set<nat>,
    pur: set<nat>, pdr: set<nat>, odr: set<nat>, dr2d: set<nat>, dr4d: set<nat>, dr8d: set<nat>,
    slr: set<nat>, im: set<nat>, sense: set<nat>, ibe: set<nat>, iev: set<nat>,
    dmactl: set<nat>, adcctl: set<nat>, handlers: seq<Handler>)

  predicate Valid(p: Port) {
    |p.pctl| == NUM_PINS && |p.handlers| == NUM_PINS && forall k :: 0 <= k < NUM_PINS ==> p.pctl[k] < 16
  }

  /** Pin k is in the mask. */
  predicate InMask(mask: bv8, k: nat)
    requires k < NUM_PINS
  {
    (mask >> k) & 1 == 1
  }

  /** The pins of a mask: `reg |= mask` adds them and `reg &= ~mask`
      removes them. */
  function Pins(mask: bv8): (m: set<nat>)
    ensures forall k: nat :: k in m <==> k < NUM_PINS && InMask(mask, k)
  {
    set k | 0 <= k < NUM_PINS && InMask(mask, k)
  }

  /** Pin k has the same configuration in both ports. */
  predicate SamePin(p: Port, q: Port, k: nat)
    requires Valid(p) && Valid(q) && k < NUM_PINS
  {
    && (k in p.den <==> k in q.den) && (k in p.amsel <==> k in q.amsel) && (k in p.afsel <==> k in q.afsel)
    && p.pctl[k] == q.pctl[k] && (k in p.dir <==> k in q.dir) && (k in p.pur <==> k in q.pur)
    && (k in p.pdr <==> k in q.pdr) && (k in p.odr <==> k in q.odr) && (k in p.dr2d <==> k in q.dr2d)
    && (k in p.dr4d <==> k in q.dr4d) && (k in p.dr8d <==> k in q.dr8d) && (k in p.slr <==> k in q.slr)
    && (k in p.im <==> k in q.im) && (k in p.sense <==> k in q.sense) && (k in p.ibe <==> k in q.ibe)
    && (k in p.iev <==> k in q.iev) && (k in p.dmactl <==> k in q.dmactl) && (k in p.adcctl <==> k in q.adcctl)
    && p.handlers[k] == q.handlers[k]
  }

  /** bsp_Gpio_init's effect on a port's handler table: every entry NULL.
      Enabling the port and clearing its NVIC interrupts is left out. */
  function Init(p: Port): (r: Port)
    ensures |r.handlers| == NUM_PINS && forall k :: 0 <= k < NUM_PINS ==> r.handlers[k] == None
    ensures r.(handlers := p.handlers) == p
  {
    p.(handlers := seq(NUM_PINS, _ => None))
  }

  // ---------------------------------------------------------------------
  // Data access

  /** bsp_Gpio_write and bsp_Gpio_read use the data register's masked
      alias: the 32-bit word `mask` words above the data register, so that
      only the mask's pins are written or read. */
  function DataAddress(base: nat, dataOffset: nat, mask: bv8): (a: nat)
    ensures a >= base + dataOffset && (a - base - dataOffset) % 4 == 0
    ensures (a - base - dataOffset) / 4 == mask as nat
  {
    base + dataOffset + 4 * mask as nat
  }

  /** Different masks never share an alias, so each access reaches its
      own pins only. */
  lemma DataAddressDistinct(base: nat, dataOffset: nat, m1: bv8, m2: bv8)
    ensures DataAddress(base, dataOffset, m1) == DataAddress(base, dataOffset, m2) <==> m1 == m2
  {
    assert DataAddress(base, dataOffset, m1) == DataAddress(base, dataOffset, m2) ==> m1 as nat == m2 as nat;
  }

  // ---------------------------------------------------------------------
  // Alternate functions

  /** A word of eight 4-bit selectors, pin 0 first, all zero. */
  const ZERO: seq<bv8> := [0, 0, 0, 0, 0, 0, 0, 0]

  /** `word <<= 4`: every selector moves up one pin and pin 7's is lost. */
  function ShiftUp(w: seq<bv8>): (r: seq<bv8>)
    requires |w| == NUM_PINS
    ensures |r| == NUM_PINS && r[0] == 0
  {
    [0] + w[..7]
  }

  /** `word |= v << (k * 4)`. */
  function Merge(w: seq<bv8>, k: nat, v: bv8): (r: seq<bv8>)
    requires |w| == NUM_PINS && k < NUM_PINS
    ensures |r| == NUM_PINS && r[k] == w[k] | v
  {
    w[k := w[k] | v]
  }

  /** The highest pin of a non-empty mask. */
  function Top(mask: bv8): (h: nat)
    requires mask != 0
    ensures h < NUM_PINS && InMask(mask, h) && mask >> h == 1
  {
    if mask >= 0x80 then 7 else if mask >= 0x40 then 6 else if mask >= 0x20 then 5
    else if mask >= 0x10 then 4 else if mask >= 0x08 then 3 else if mask >= 0x04 then 2
    else if mask >= 0x02 then 1 else 0
  }

  /** A word holding v at pin k alone (nothing when k is -1). */
  function Only(k: int, v: bv8): (r: seq<bv8>)
    requires -1 <= k < NUM_PINS
    ensures |r| == NUM_PINS
  {
    if k < 0 then ZERO else ZERO[k := v]
  }

  /** A word holding v at the mask's pins below `bit`. */
  function Spread(mask: bv8, bit: nat, v: bv8): (r: seq<bv8>)
    requires bit <= NUM_PINS
    ensures |r| == NUM_PINS
  {
    seq(NUM_PINS, k requires 0 <= k < NUM_PINS => if k < bit && InMask(mask, k) then v else 0)
  }

  lemma MaskStep(mask: bv8, bit: nat)
    requires bit < NUM_PINS
    ensures (mask >> bit) >> 1 == mask >> (bit + 1)
    ensures (mask >> bit) & 1 == 1 <==> InMask(mask, bit)
  {
  }

  lemma ShiftAll(mask: bv8)
    ensures mask >> 8 == 0
  {
  }

  lemma ShiftOnly(k: int, v: bv8)
    requires -1 <= k < 7 && v < 16
    ensures k >= 0 ==> ShiftUp(Only(k, v)) == Only(k + 1, v)
    ensures ShiftUp(ZERO) == ZERO
  {
  }

  lemma MergeOnly(k: nat, v: bv8)
    requires k < NUM_PINS && v < 16
    ensures Merge(Only(k, v), k, v) == Only(k, v)
    ensures Merge(ZERO, k, v) == Only(k, v)
  {
  }

  /** One pass of the loop as written on a word that holds v at `pos`
      alone, `pos` being the previous pass's pin or -1. */
  lemma StepOnly(pos: int, bit: nat, hit: bool, v: bv8)
    requires -1 <= pos < bit < NUM_PINS && (pos >= 0 ==> pos == bit - 1) && v < 16
    ensures var s := ShiftUp(Only(pos, v));
            (if hit then Merge(s, bit, v) else s) == Only(if hit then bit else if pos >= 0 then pos + 1 else -1, v)
  {
    if pos >= 0 { ShiftOnly(pos, v); } else { ShiftOnly(-1, v); }
    if hit { MergeOnly(bit, v); }
  }

  /** The pin the loop stops after is the mask's highest. */
  lemma TopAt(mask: bv8, bit: nat)
    requires 0 < bit <= NUM_PINS && mask >> bit == 0 && InMask(mask, bit - 1)
    ensures Top(mask) == bit - 1
  {
  }

  /** The selector mask and value loop of bsp_Gpio_configAltFunction as
      written: both words are shifted up a nibble on every pass before the
      pass's pin is merged, so whatever pins the mask holds, only the
      selector of its highest pin is chosen. */
  method PctlAsWritten(mask: bv8, alt: bv8) returns (regMask: seq<bv8>, regVal: seq<bv8>)
    requires alt < 16
    ensures mask == 0 ==> regMask == ZERO && regVal == ZERO
    ensures mask != 0 ==> regMask == Only(Top(mask), 0xF) && regVal == Only(Top(mask), alt)
  {
    regMask := ZERO;
    regVal := ZERO;
    var tmp := mask;
    var bit: nat := 0;
    ghost var pos: int := -1;
    while tmp != 0
      invariant bit <= NUM_PINS && tmp == mask >> bit
      invariant -1 <= pos < bit && (pos >= 0 ==> pos == bit - 1)
      invariant regMask == Only(pos, 0xF) && regVal == Only(pos, alt)
      invariant tmp == 0 && 0 < bit ==> pos >= 0 && InMask(mask, bit - 1)
      decreases NUM_PINS - bit
    {
      assert bit < NUM_PINS by { ShiftAll(mask); }
      MaskStep(mask, bit);
      ghost var hit := tmp & 1 == 1;
      StepOnly(pos, bit, hit, 0xF);
      StepOnly(pos, bit, hit, alt);
      regMask := ShiftUp(regMask);
      regVal := ShiftUp(regVal);
      if tmp & 1 == 1 {
        regMask := Merge(regMask, bit, 0xF);
        regVal := Merge(regVal, bit, alt);
      }
      pos := if hit then bit else if pos >= 0 then pos + 1 else -1;
      tmp := tmp >> 1;
      bit := bit + 1;
    }
    if mask != 0 {
      TopAt(mask, bit);
    }
  }

  /** Pins 0 and 1 together: the loop as written selects pin 1's selector
      alone, so pin 0 keeps its old function. */
  method PctlAsWrittenDropsLowPin() returns (regMask: seq<bv8>, regVal: seq<bv8>)
    ensures regMask == [0, 0xF, 0, 0, 0, 0, 0, 0] && regVal == [0, 2, 0, 0, 0, 0, 0, 0]
    ensures InMask(0x03, 0) && regMask[0] == 0
  {
    regMask, regVal := PctlAsWritten(0x03, 2);
    assert Top(0x03) == 1;
  }

  lemma SpreadStep(mask: bv8, bit: nat, hit: bool, v: bv8)
    requires bit < NUM_PINS && (hit <==> InMask(mask, bit))
    ensures (if hit then Merge(Spread(mask, bit, v), bit, v) else Spread(mask, bit, v)) == Spread(mask, bit + 1, v)
  {
  }

  lemma SpreadAll(mask: bv8, bit: nat, v: bv8)
    requires bit <= NUM_PINS && mask >> bit == 0
    ensures Spread(mask, bit, v) == Spread(mask, NUM_PINS, v)
  {
    forall k | bit <= k < NUM_PINS
      ensures !InMask(mask, k)
    {
    }
  }

  /** The loop without the per-pass shifts: the selector of every pin in
      the mask is chosen, and no other. */
  method Pctl(mask: bv8, alt: bv8) returns (regMask: seq<bv8>, regVal: seq<bv8>)
    requires alt < 16
    ensures |regMask| == NUM_PINS && |regVal| == NUM_PINS
    ensures forall k :: 0 <= k < NUM_PINS ==> regMask[k] == if InMask(mask, k) then 0xF else 0
    ensures forall k :: 0 <= k < NUM_PINS ==> regVal[k] == if InMask(mask, k) then alt else 0
  {
    regMask := ZERO;
    regVal := ZERO;
    var tmp := mask;
    var bit: nat := 0;
    while tmp != 0
      invariant bit <= NUM_PINS && tmp == mask >> bit
      invariant regMask == Spread(mask, bit, 0xF) && regVal == Spread(mask, bit, alt)
      decreases NUM_PINS - bit
    {
      assert bit < NUM_PINS by { ShiftAll(mask); }
      MaskStep(mask, bit);
      SpreadStep(mask, bit, tmp & 1 == 1, 0xF);
      SpreadStep(mask, bit, tmp & 1 == 1, alt);
      if tmp & 1 == 1 {
        regMask := Merge(regMask, bit, 0xF);
        regVal := Merge(regVal, bit, alt);
      }
      tmp := tmp >> 1;
      bit := bit + 1;
    }
    SpreadAll(mask, bit, 0xF);
    SpreadAll(mask, bit, alt);
  }

  /** `PCTL &= ~regMask; PCTL |= regVal`, selector by selector. */
  function ApplyPctl(pctl: seq<bv8>, regMask: seq<bv8>, regVal: seq<bv8>): (r: seq<bv8>)
    requires |pctl| == NUM_PINS && |regMask| == NUM_PINS && |regVal| == NUM_PINS
    ensures |r| == NUM_PINS
  {
    seq(NUM_PINS, k requires 0 <= k < NUM_PINS => (pctl[k] & !regMask[k] & 0xF) | regVal[k])
  }

  /** bsp_Gpio_configAltFunction with the corrected loop. An analog pin
      leaves the digital function and takes the analog one; a digital pin
      gets the selector and the alternate function, and its digital
      enable. */
  method ConfigAltFunction(p: Port, mask: bv8, analog: bool, alt: bv8) returns (r: Port)
    requires Valid(p) && alt < 16
    ensures Valid(r)
    ensures forall k :: 0 <= k < NUM_PINS && !InMask(mask, k) ==> SamePin(p, r, k)
    ensures analog ==> forall k :: 0 <= k < NUM_PINS && InMask(mask, k) ==>
              k !in r.den && k in r.amsel && r.pctl[k] == p.pctl[k] && (k in r.afsel <==> k in p.afsel)
    ensures !analog ==> forall k :: 0 <= k < NUM_PINS && InMask(mask, k) ==>
              k in r.den && k in r.afsel && r.pctl[k] == alt && (k in r.amsel <==> k in p.amsel)
  {
    if analog {
      r := p.(den := p.den - Pins(mask), amsel := p.amsel + Pins(mask));
    } else {
      var regMask, regVal := Pctl(mask, alt);
      var pctl := ApplyPctl(p.pctl, regMask, regVal);
      r := p.(pctl := pctl, den := p.den + Pins(mask), afsel := p.afsel + Pins(mask));
    }
  }

  /** The same with the loop as written. */
  method ConfigAltFunctionAsWritten(p: Port, mask: bv8, analog: bool, alt: bv8) returns (r: Port)
    requires Valid(p) && alt < 16
    ensures Valid(r)
    ensures |r.pctl| == NUM_PINS
    ensures !analog && mask != 0 ==> r.pctl[Top(mask)] == alt
    ensures !analog ==> forall k :: 0 <= k < NUM_PINS && (mask == 0 || k != Top(mask)) ==> r.pctl[k] == p.pctl[k]
  {
    if analog {
      r := p.(den := p.den - Pins(mask), amsel := p.amsel + Pins(mask));
    } else {
      var regMask, regVal := PctlAsWritten(mask, alt);
      var pctl := ApplyPctl(p.pctl, regMask, regVal);
      r := p.(pctl := pctl, den := p.den + Pins(mask), afsel := p.afsel + Pins(mask));
    }
  }

  /** Routing pins 0 and 1 of a port to function 2 at once, as written,
      leaves pin 0 on its previous function. */
  method AltFunctionAsWrittenMissesPin(p: Port) returns (r: Port)
    requires Valid(p) && p.pctl[0] != 2
    ensures Valid(r) && InMask(0x03, 0) && r.pctl[0] != 2 && r.pctl[1] == 2
  {
    r := ConfigAltFunctionAsWritten(p, 0x03, false, 2);
    assert Top(0x03) == 1;
  }

  // ---------------------------------------------------------------------
  // Digital input and output

  /** bsp_Gpio_configOutput. */
  function ConfigOutput(p: Port, mask: bv8, openDrain: bool, drive: nat): (r: Port)
    requires Valid(p)
    ensures Valid(r)
    ensures forall k :: 0 <= k < NUM_PINS && !InMask(mask, k) ==> SamePin(p, r, k)
    ensures forall k :: 0 <= k < NUM_PINS && InMask(mask, k) ==>
              && k in r.den && k in r.dir && k !in r.pur && k !in r.pdr && k !in r.afsel
              && (k in r.odr <==> openDrain)
              && (drive == DRIVE_2MA ==> k in r.dr2d)
              && (drive == DRIVE_4MA ==> k in r.dr4d)
              && (drive >= DRIVE_8MA ==> k in r.dr8d && (k in r.slr <==> drive != DRIVE_8MA))
  {
    var m := Pins(mask);
    var q := p.(den := p.den + m, dir := p.dir + m, pur := p.pur - m, pdr := p.pdr - m, afsel := p.afsel - m,
                odr := if openDrain then p.odr + m else p.odr - m);
    if drive == DRIVE_2MA then q.(dr2d := q.dr2d + m)
    else if drive == DRIVE_4MA then q.(dr4d := q.dr4d + m)
    else if drive == DRIVE_8MA then q.(dr8d := q.dr8d + m, slr := q.slr - m)
    else q.(dr8d := q.dr8d + m, slr := q.slr + m)
  }

  /** The pull a pin ends up with, read from the two resistor registers. */
  datatype Pull = NoPull | PullUp | PullDown | Both

  function PullOf(p: Port, k: nat): Pull {
    if k in p.pur && k in p.pdr then Both
    else if k in p.pur then PullUp
    else if k in p.pdr then PullDown
    else NoPull
  }

  /** bsp_Gpio_configInput: an unknown pull value leaves the resistors
      alone. */
  function ConfigInput(p: Port, mask: bv8, openDrain: bool, pull: nat): (r: Port)
    requires Valid(p)
    ensures Valid(r)
    ensures forall k :: 0 <= k < NUM_PINS && !InMask(mask, k) ==> SamePin(p, r, k)
    ensures forall k :: 0 <= k < NUM_PINS && InMask(mask, k) ==>
              && k in r.den && k !in r.dir && (k in r.odr <==> openDrain)
              && (pull <= PULL_DOWN ==> PullOf(r, k) == [NoPull, PullUp, PullDown][pull])
              && (pull > PULL_DOWN ==> PullOf(r, k) == PullOf(p, k))
  {
    var m := Pins(mask);
    var q := p.(den := p.den + m, dir := p.dir - m, odr := if openDrain then p.odr + m else p.odr - m);
    if pull == PULL_NONE then q.(pur := q.pur - m, pdr := q.pdr - m)
    else if pull == PULL_UP then q.(pur := q.pur + m, pdr := q.pdr - m)
    else if pull == PULL_DOWN then q.(pur := q.pur - m, pdr := q.pdr + m)
    else q
  }

  // ---------------------------------------------------------------------
  // Interrupts

  /** bsp_Gpio_intControl: the mask's pins are unmasked or masked. */
  function IntControl(p: Port, mask: bv8, control: nat): (r: Port)
    requires Valid(p)
    ensures Valid(r) && r.(im := p.im) == p
    ensures forall k :: 0 <= k < NUM_PINS ==> (k in r.im <==> if InMask(mask, k) then control == INT_ENABLE else k in p.im)
  {
    if control == INT_ENABLE then p.(im := p.im + Pins(mask)) else p.(im := p.im - Pins(mask))
  }

  /** The trigger a pin's sense registers select. IS picks level over
      edge; for an edge IBE picks both edges, and otherwise IEV set picks
      the rising edge (the reading bsp_Gpio_intConfig's edge branches use);
      for a level, IEV set picks the high level. */
  function Trigger(p: Port, k: nat): (t: nat)
    ensures t <= LEVEL_HIGH
  {
    if k in p.sense then (if k in p.iev then LEVEL_HIGH else LEVEL_LOW)
    else if k in p.ibe then EDGE_BOTH
    else if k in p.iev then EDGE_RISING
    else EDGE_FALLING
  }

  /** The sense register writes of bsp_Gpio_intConfig as written: LEVEL_LOW
      sets IEV and LEVEL_HIGH clears it. An unknown type writes nothing. */
  function SenseAsWritten(p: Port, typ: nat, m: set<nat>): (r: Port)
    ensures r.(sense := p.sense, ibe := p.ibe, iev := p.iev) == p
  {
    if typ == EDGE_RISING then p.(sense := p.sense - m, ibe := p.ibe - m, iev := p.iev + m)
    else if typ == EDGE_FALLING then p.(sense := p.sense - m, ibe := p.ibe - m, iev := p.iev - m)
    else if typ == EDGE_BOTH then p.(sense := p.sense - m, ibe := p.ibe + m)
    else if typ == LEVEL_LOW then p.(sense := p.sense + m, iev := p.iev + m)
    else if typ == LEVEL_HIGH then p.(sense := p.sense + m, iev := p.iev - m)
    else p
  }

  /** The same with the two level branches' IEV writes exchanged. */
  function Sense(p: Port, typ: nat, m: set<nat>): (r: Port)
    ensures r.(sense := p.sense, ibe := p.ibe, iev := p.iev) == p
  {
    if typ == LEVEL_LOW then p.(sense := p.sense + m, iev := p.iev - m)
    else if typ == LEVEL_HIGH then p.(sense := p.sense + m, iev := p.iev + m)
    else SenseAsWritten(p, typ, m)
  }

  /** With the correction every pin of the mask triggers as asked, for
      each of the five types, and the other pins keep their trigger. */
  lemma SenseSelects(p: Port, typ: nat, m: set<nat>, k: nat)
    requires typ <= LEVEL_HIGH
    ensures k in m ==> Trigger(Sense(p, typ, m), k) == typ
    ensures k !in m ==> Trigger(Sense(p, typ, m), k) == Trigger(p, k)
  {
  }

  /** As written, a pin asked to interrupt on a low level interrupts on a
      high level, and the other way round; the edge types are right. */
  lemma SenseAsWrittenSwapsLevels(p: Port, m: set<nat>, k: nat)
    requires k in m
    ensures Trigger(SenseAsWritten(p, LEVEL_LOW, m), k) == LEVEL_HIGH
    ensures Trigger(SenseAsWritten(p, LEVEL_HIGH, m), k) == LEVEL_LOW
    ensures Trigger(SenseAsWritten(p, EDGE_RISING, m), k) == EDGE_RISING
    ensures Trigger(SenseAsWritten(p, EDGE_FALLING, m), k) == EDGE_FALLING
    ensures Trigger(SenseAsWritten(p, EDGE_BOTH, m), k) == EDGE_BOTH
  {
  }

  /** bsp_Gpio_intConfig, corrected: DMA and ADC triggers are only ever
      enabled here, the trigger type is written, and the callback is
      registered for exactly the mask's pins. */
  function IntConfig(p: Port, mask: bv8, dma: bool, adc: bool, typ: nat, callback: Handler): (r: Port)
    requires Valid(p)
    ensures Valid(r) && r.im == p.im && r.pctl == p.pctl
    ensures forall k :: 0 <= k < NUM_PINS ==> r.handlers[k] == if InMask(mask, k) then callback else p.handlers[k]
    ensures forall k :: 0 <= k < NUM_PINS ==> (k in r.dmactl <==> k in p.dmactl || (dma && InMask(mask, k)))
    ensures forall k :: 0 <= k < NUM_PINS ==> (k in r.adcctl <==> k in p.adcctl || (adc && InMask(mask, k)))
    ensures forall k :: 0 <= k < NUM_PINS ==> Trigger(r, k) == if InMask(mask, k) && typ <= LEVEL_HIGH then typ else Trigger(p, k)
  {
    var m := Pins(mask);
    var q := p.(dmactl := if dma then p.dmactl + m else p.dmactl,
                adcctl := if adc then p.adcctl + m else p.adcctl);
    var s := Sense(q, typ, m);
    forall k | 0 <= k < NUM_PINS
      ensures Trigger(s, k) == if InMask(mask, k) && typ <= LEVEL_HIGH then typ else Trigger(p, k)
    {
      if typ <= LEVEL_HIGH { SenseSelects(q, typ, m, k); }
    }
    s.(handlers := seq(NUM_PINS, k requires 0 <= k < NUM_PINS => if InMask(mask, k) then callback else p.handlers[k]))
  }

  /** A call of a pin's callback: (portId, pin). */
  datatype Call = Call(port: nat, pin: nat, handler: nat)

  /** The pins of a run of calls. */
  function PinsOf(cs: seq<Call>): set<nat> {
    if cs == [] then {} else {cs[0].pin} + PinsOf(cs[1..])
  }

  /** bsp_Gpio_isrCommon from pin `from` on: the pending pins are walked
      upwards and each one with a callback is called with its own handler. */
  function Dispatch(port: nat, pending: set<nat>, handlers: seq<Handler>, from: nat): (cs: seq<Call>)
    requires |handlers| == NUM_PINS && from <= NUM_PINS
    ensures forall i :: 0 <= i < |cs| ==>
              && from <= cs[i].pin < NUM_PINS && cs[i].pin in pending
              && handlers[cs[i].pin] == Some(cs[i].handler) && cs[i].port == port
    decreases NUM_PINS - from
  {
    if from == NUM_PINS then []
    else
      var rest := Dispatch(port, pending, handlers, from + 1);
      if from in pending && handlers[from].Some? then [Call(port, from, handlers[from].id)] + rest
      else rest
  }

  /** Calls in strictly ascending pin order: no pin is served twice. */
  predicate Ascending(cs: seq<Call>) {
    forall i, j :: 0 <= i < j < |cs| ==> cs[i].pin < cs[j].pin
  }

  /** Every pending pin from `from` on that has a callback is served. */
  predicate Covers(cs: seq<Call>, pending: set<nat>, handlers: seq<Handler>, from: nat)
    requires |handlers| == NUM_PINS
  {
    forall k :: from <= k < NUM_PINS && k in pending && handlers[k].Some? ==> k in PinsOf(cs)
  }

  lemma {:induction false} DispatchAscending(port: nat, pending: set<nat>, handlers: seq<Handler>, from: nat)
    requires |handlers| == NUM_PINS && from <= NUM_PINS
    ensures Ascending(Dispatch(port, pending, handlers, from))
    decreases NUM_PINS - from
  {
    if from < NUM_PINS {
      DispatchAscending(port, pending, handlers, from + 1);
      var rest := Dispatch(port, pending, handlers, from + 1);
      var cs := Dispatch(port, pending, handlers, from);
      if from in pending && handlers[from].Some? {
        assert cs == [Call(port, from, handlers[from].id)] + rest;
        forall i, j | 0 <= i < j < |cs|
          ensures cs[i].pin < cs[j].pin
        {
          assert cs[j] == rest[j - 1] && rest[j - 1].pin > from;
          if i > 0 {
            assert cs[i] == rest[i - 1];
          }
        }
      } else {
        assert cs == rest;
      }
    }
  }

  lemma {:induction false} DispatchComplete(port: nat, pending: set<nat>, handlers: seq<Handler>, from: nat)
    requires |handlers| == NUM_PINS && from <= NUM_PINS
    ensures Covers(Dispatch(port, pending, handlers, from), pending, handlers, from)
    decreases NUM_PINS - from
  {
    if from < NUM_PINS {
      DispatchComplete(port, pending, handlers, from + 1);
      var rest := Dispatch(port, pending, handlers, from + 1);
      var cs := Dispatch(port, pending, handlers, from);
      if from in pending && handlers[from].Some? {
        assert cs == [Call(port, from, handlers[from].id)] + rest;
        assert cs[0].pin == from && cs[1..] == rest;
        assert PinsOf(cs) == {from} + PinsOf(rest);
      } else {
        assert cs == rest;
      }
      forall k | from <= k < NUM_PINS && k in pending && handlers[k].Some?
        ensures k in PinsOf(cs)
      {
        if k > from {
          assert k in PinsOf(rest);
        }
      }
    }
  }

  /** The port interrupt: all pending pins are cleared at once (the ICR
      write) and the callbacks run in ascending pin order, each once. */
  function PortIsr(port: nat, mis: bv8, handlers: seq<Handler>): (r: (bv8, seq<Call>))
    requires |handlers| == NUM_PINS
    ensures r.0 == mis
    ensures forall i :: 0 <= i < |r.1| ==> r.1[i].pin < NUM_PINS && InMask(mis, r.1[i].pin) && handlers[r.1[i].pin] == Some(r.1[i].handler)
    ensures forall k :: 0 <= k < NUM_PINS && InMask(mis, k) && handlers[k].Some? ==> k in PinsOf(r.1)
    ensures forall i, j :: 0 <= i < j < |r.1| ==> r.1[i].pin < r.1[j].pin
  {
    var cs := Dispatch(port, Pins(mis), handlers, 0);
    DispatchAscending(port, Pins(mis), handlers, 0);
    DispatchComplete(port, Pins(mis), handlers, 0);
    assert Ascending(cs) && Covers(cs, Pins(mis), handlers, 0);
    (mis, cs)
  }

  /** What the callback slot of a handled pin interrupt does. */
  datatype MaybeCall = NoCall | CallOf(call: Call)

  /** What the single-pin interrupt does: nothing when its pin is not
      pending; otherwise the pin is cleared and its callback run (or, in
      the legacy copy, a NULL callback is jumped to). */
  datatype PinOutcome = Ignored | Handled(clear: bv8, call: MaybeCall) | NullCall(clear: bv8)

  /** bsp_Gpio_isrPinCommon of the processor copy: only the interrupt's
      own pin is looked at, and a NULL callback is skipped. */
  function PinIsr(port: nat, mis: bv8, handlers: seq<Handler>, pin: nat): (r: PinOutcome)
    requires |handlers| == NUM_PINS && pin < NUM_PINS
    ensures r.Ignored? <==> !InMask(mis, pin)
    ensures r.Handled? ==> r.clear == 1 << pin
    ensures r.Handled? ==> (r.call.CallOf? <==> handlers[pin].Some?)
    ensures r.Handled? && r.call.CallOf? ==> r.call.call == Call(port, pin, handlers[pin].id)
    ensures !r.NullCall?
  {
    if !InMask(mis, pin) then Ignored
    else Handled(1 << pin, if handlers[pin].Some? then CallOf(Call(port, pin, handlers[pin].id)) else NoCall)
  }

  /** bsp_Gpio_isrPinCommon of the legacy copy: the callback is called
      without the NULL check. */
  function PinIsrAsWritten(port: nat, mis: bv8, handlers: seq<Handler>, pin: nat): (r: PinOutcome)
    requires |handlers| == NUM_PINS && pin < NUM_PINS
    ensures r.Ignored? <==> !InMask(mis, pin)
    ensures r.NullCall? <==> InMask(mis, pin) && handlers[pin].None?
  {
    if !InMask(mis, pin) then Ignored
    else if handlers[pin].Some? then Handled(1 << pin, CallOf(Call(port, pin, handlers[pin].id)))
    else NullCall(1 << pin)
  }

  /** A pending pin that never had a callback registered (the table is all
      NULL after init) makes the legacy copy jump to NULL, while the
      processor copy clears it and returns. */
  lemma PinIsrAsWrittenCallsNull(p: Port, port: nat, pin: nat)
    requires pin < NUM_PINS
    ensures var h := Init(p).handlers;
            && PinIsrAsWritten(port, 1 << pin, h, pin).NullCall?
            && PinIsr(port, 1 << pin, h, pin) == Handled(1 << pin, NoCall)
  {
  }

  /** The two copies agree whenever the pin has a callback. */
  lemma PinIsrAgreeWithCallback(port: nat, mis: bv8, handlers: seq<Handler>, pin: nat)
    requires |handlers| == NUM_PINS && pin < NUM_PINS && handlers[pin].Some?
    ensures PinIsrAsWritten(port, mis, handlers, pin) == PinIsr(port, mis, handlers, pin)
  {
  }
}
