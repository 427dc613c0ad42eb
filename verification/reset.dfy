/** The reset bookkeeping (bsp_Reset.c). A retained RAM section survives
    resets and holds the reset count, the software reason recorded just
    before a reset and the registers saved by a fault. At boot the
    hardware cause and the software reason are packed into one 32-bit
    "last reason", the software reason is cleared, and the assert location
    of the previous run becomes the "last" one. The hardware cause register
    is a parameter. */
module Reset {
  import opened Bytes

  const HW_EXT: bv32 := 0x0001
  const HW_POR: bv32 := 0x0002
  const HW_BOR: bv32 := 0x0004
  const HW_WDT0: bv32 := 0x0008
  const HW_SW: bv32 := 0x0010
  const HW_WDT1: bv32 := 0x0020
  const HW_HIB: bv32 := 0x0040
  const HW_HREQ: bv32 := 0x1000

  const SW_UNKNOWN: bv8 := 0
  const SW_ASSERT: bv8 := 1
  const SW_UNHANDLED_INT: bv8 := 2
  const SW_FAULT: bv8 := 3
  const SW_EXIT: bv8 := 4
  const SW_OS_MALLOC: bv8 := 5
  const SW_OS_STACK: bv8 := 6

  /** Everything bsp_Reset keeps. The count, software reason and fault
      registers live in the retained section; the assert location is in
      uninitialised RAM; the "last" values are rebuilt at every boot.
      Assert function names are pointers, 0 standing for NULL. */
  datatype State = State(
    count: u32, swReason: bv8, faultRegs: seq<u32>,
    assertFunction: nat, assertLine: u16,
    lastReason: bv32, lastAssertFunction: nat, lastAssertLine: u16)

  predicate Valid(s: State) { |s.faultRegs| == 8 }

  /** The hardware reason byte as written: the low seven cause bits or'ed
      with the whole cause shifted right by six, narrowed to uint8. */
  function HwReasonAsWritten(cause: bv32): (r: bv8)
    ensures r as bv32 == ((cause & 0x7F) | (cause >> 6)) & 0xFF
  {
    (((cause & 0x7F) | (cause >> 6)) & 0xFF) as bv8
  }

  /** The packing the reason flags call for: the seven low causes keep
      their bits and the host request (bit 12) moves to bit 7. */
  function HwReason(cause: bv32): (r: bv8)
    ensures (r as bv32 & 0x7F) == cause & 0x7F
    ensures (r & 0x80 != 0) <==> (cause & HW_HREQ != 0)
  {
    ((cause & 0x7F) as bv8) | (if cause & HW_HREQ != 0 then 0x80 else 0)
  }

  /** The reason byte each hardware cause flag is reported as. */
  function Reported(f: bv32): bv32 { if f == HW_HREQ then 0x80 else f }

  /** Every cause flag is reported by its own bit and no other: the packed
      byte shows a flag exactly when the cause has it. */
  lemma HwReasonFaithful(cause: bv32, f: bv32)
    requires f in {HW_EXT, HW_POR, HW_BOR, HW_WDT0, HW_SW, HW_WDT1, HW_HIB, HW_HREQ}
    ensures (HwReason(cause) as bv32 & Reported(f) != 0) <==> (cause & f != 0)
  {
  }

  /** As written, a hibernate wake also reads as an external reset, and a
      host request reads as a hibernate wake. */
  lemma HwReasonAsWrittenConfuses()
    ensures HwReasonAsWritten(HW_HIB) == 0x41
    ensures HwReasonAsWritten(HW_HREQ) == HW_HIB as bv8
    ensures HwReason(HW_HIB) == 0x40 && HwReason(HW_HREQ) == 0x80
  {
  }

  /** The 32-bit last reason: hardware byte above, software byte below. */
  function Pack(hw: bv8, sw: bv8): (r: bv32)
    ensures (r >> 16) & 0xFF == hw as bv32 && r & 0xFF == sw as bv32
    ensures r < 0x100_0000
  {
    ((hw as bv32) << 16) | (sw as bv32)
  }

  /** bsp_Reset_getSwReason. */
  function GetSwReason(s: State): (r: bv8)
    ensures r as bv32 == s.lastReason & 0xFF
  {
    (s.lastReason & 0xFF) as bv8
  }

  /** bsp_Reset_getHwReason. */
  function GetHwReason(s: State): (r: bv8)
    ensures r as bv32 == (s.lastReason >> 16) & 0xFF
  {
    ((s.lastReason >> 16) & 0xFF) as bv8
  }

  /** The getters take back exactly what packing put in. */
  lemma UnpackPack(s: State, hw: bv8, sw: bv8)
    requires s.lastReason == Pack(hw, sw)
    ensures GetHwReason(s) == hw && GetSwReason(s) == sw
  {
  }

  /** bsp_Reset_init with the reason packing the flags call for. A power-on
      reset zeroes the count and forgets the software reason; any other
      reset counts one more (modulo 2^32). The fault registers are kept
      only when the run before ended in a fault. */
  function Init(s: State, cause: bv32): (r: State)
    requires Valid(s)
    ensures Valid(r)
    ensures var sw := if cause & HW_POR != 0 then SW_UNKNOWN else s.swReason;
            && r.count == (if cause & HW_POR != 0 then 0 else (s.count + 1) % 0x1_0000_0000)
            && r.faultRegs == (if sw == SW_FAULT then s.faultRegs else seq(8, _ => 0))
            && GetSwReason(r) == sw && GetHwReason(r) == HwReason(cause)
            && r.swReason == SW_UNKNOWN
            && r.lastAssertFunction == s.assertFunction && r.lastAssertLine == s.assertLine
            && r.assertFunction == 0 && r.assertLine == 0
  {
    var count := if cause & HW_POR != 0 then 0 else (s.count + 1) % 0x1_0000_0000;
    var sw := if cause & HW_POR != 0 then SW_UNKNOWN else s.swReason;
    var regs := if sw != SW_FAULT then seq(8, _ => 0) else s.faultRegs;
    var r := State(count, SW_UNKNOWN, regs, 0, 0, Pack(HwReason(cause), sw), s.assertFunction, s.assertLine);
    UnpackPack(r, HwReason(cause), sw);
    r
  }

  /** bsp_Reset_init as written, with HwReasonAsWritten. */
  function InitAsWritten(s: State, cause: bv32): (r: State)
    requires Valid(s)
    ensures r == Init(s, cause).(lastReason := Pack(HwReasonAsWritten(cause), GetSwReason(Init(s, cause))))
    ensures GetHwReason(r) == HwReasonAsWritten(cause)
  {
    var i := Init(s, cause);
    var r := i.(lastReason := Pack(HwReasonAsWritten(cause), GetSwReason(i)));
    UnpackPack(r, HwReasonAsWritten(cause), GetSwReason(i));
    r
  }

  /** bsp_Reset_systemReset: the reason is recorded for the next boot (the
      reset itself is left to the hardware). */
  function SystemReset(s: State, reason: bv8): (r: State)
    ensures r.swReason == reason && r.(swReason := s.swReason) == s
  {
    s.(swReason := reason)
  }

  /** bsp_Reset_systemFault: the eight stacked registers r0-r3, r12, lr,
      pc and psr are saved and the reason set to FAULT. */
  function SystemFault(s: State, stackRegs: seq<u32>): (r: State)
    requires |stackRegs| >= 8
    ensures Valid(r) && r.swReason == SW_FAULT
    ensures forall i :: 0 <= i < 8 ==> r.faultRegs[i] == stackRegs[i]
    ensures r.(swReason := s.swReason, faultRegs := s.faultRegs) == s
  {
    s.(faultRegs := stackRegs[..8], swReason := SW_FAULT)
  }

  /** bsp_Reset_setAssertInfo. */
  function SetAssertInfo(s: State, function_: nat, line: u16): (r: State)
    ensures r.assertFunction == function_ && r.assertLine == line
    ensures r.(assertFunction := s.assertFunction, assertLine := s.assertLine) == s
  {
    s.(assertFunction := function_, assertLine := line)
  }

  /** A software reset's reason, and an assert's location, are what the
      next boot reports, unless the reset is a power-on. */
  lemma ReasonSurvivesReset(s: State, reason: bv8, function_: nat, line: u16, cause: bv32)
    requires Valid(s)
    ensures var r := Init(SystemReset(SetAssertInfo(s, function_, line), reason), cause);
            && (cause & HW_POR == 0 ==> GetSwReason(r) == reason)
            && (cause & HW_POR != 0 ==> GetSwReason(r) == SW_UNKNOWN && r.count == 0)
            && r.lastAssertFunction == function_ && r.lastAssertLine == line
  {
  }

  /** Registers saved by a fault survive a non-power-on reset, which
      reports FAULT; a power-on reset zeroes them. */
  lemma FaultRegsSurvive(s: State, stackRegs: seq<u32>, cause: bv32)
    requires Valid(s) && |stackRegs| >= 8
    ensures var r := Init(SystemFault(s, stackRegs), cause);
            && (cause & HW_POR == 0 ==> r.faultRegs == stackRegs[..8] && GetSwReason(r) == SW_FAULT)
            && (cause & HW_POR != 0 ==> forall i :: 0 <= i < 8 ==> r.faultRegs[i] == 0)
  {
  }

  /** A second boot with no software reason in between reports UNKNOWN and
      clears the saved registers. */
  lemma ReasonReportedOnce(s: State, c1: bv32, c2: bv32)
    requires Valid(s)
    ensures var r := Init(Init(s, c1), c2);
            GetSwReason(r) == SW_UNKNOWN && forall i :: 0 <= i < 8 ==> r.faultRegs[i] == 0
  {
  }
}
