/** NVIC priority packing (bsp_Interrupt.h). The Cortex-M4 implements the
    top three bits of each 8-bit priority; the PRIGROUP mode splits those
    three bits into a preemption group and a subgroup. Priority registers
    hold four priorities, one per byte, and the table builder places each
    3-bit value in bits 5-7 of its byte. */
module Interrupt {
  /** BSP_INTERRUPT_PRIORITY_MODE_*: 8 groups of 1, 4 of 2, 2 of 4, 1 of 8. */
  datatype Mode = Grp8Sub1 | Grp4Sub2 | Grp2Sub4 | Grp1Sub8

  /** The PRIGROUP code written for each mode. */
  function ModeCode(m: Mode): (c: bv32)
    ensures c in {0x00, 0x05, 0x06, 0x07}
  {
    match m
    case Grp8Sub1 => 0x00
    case Grp4Sub2 => 0x05
    case Grp2Sub4 => 0x06
    case Grp1Sub8 => 0x07
  }

  /** The number of bits of the 3-bit value that form the subgroup. */
  function SubBits(m: Mode): (n: bv32)
    ensures n <= 3
  {
    match m
    case Grp8Sub1 => 0
    case Grp4Sub2 => 1
    case Grp2Sub4 => 2
    case Grp1Sub8 => 3
  }

  /** A group and subgroup that fit the mode. */
  predicate Fits(m: Mode, group: bv32, sub: bv32) {
    group < (8 >> SubBits(m)) && sub < (1 << SubBits(m))
  }

  /** BSP_INTERRUPT_PRIORITY_GROUP_SUBGROUP for the mode: the group alone
      with 8 groups, the subgroup alone with one group, and otherwise the
      group shifted above the subgroup. */
  function GroupSubgroup(m: Mode, group: bv32, sub: bv32): (p: bv32)
    requires group < 8 && sub < 8
    ensures Fits(m, group, sub) ==> p < 8
  {
    match m
    case Grp8Sub1 => group
    case Grp4Sub2 => (group << 1) | sub
    case Grp2Sub4 => (group << 2) | sub
    case Grp1Sub8 => sub
  }

  /** How the NVIC reads a 3-bit priority under the mode. */
  function GroupOf(m: Mode, p: bv32): bv32 { p >> SubBits(m) }
  function SubOf(m: Mode, p: bv32): bv32 { p & ((1 << SubBits(m)) - 1) }

  /** A packed priority is read back as the group and subgroup it was
      built from, so the group decides preemption as the tables intend. */
  lemma GroupSubgroupRoundTrip(m: Mode, group: bv32, sub: bv32)
    requires group < 8 && sub < 8 && Fits(m, group, sub)
    ensures GroupOf(m, GroupSubgroup(m, group, sub)) == group
    ensures m != Grp8Sub1 ==> SubOf(m, GroupSubgroup(m, group, sub)) == sub
  {
  }

  /** A smaller group preempts under every mode: packing keeps the group
      order whatever the subgroups. */
  lemma GroupOrderKept(m: Mode, g1: bv32, s1: bv32, g2: bv32, s2: bv32)
    requires g1 < 8 && s1 < 8 && g2 < 8 && s2 < 8 && Fits(m, g1, s1) && Fits(m, g2, s2)
    requires g1 < g2
    ensures GroupSubgroup(m, g1, s1) < GroupSubgroup(m, g2, s2)
  {
  }

  /** BSP_INTERRUPT_BUILD_PRI_REG: a at bit 5, b at 13, c at 21, d at 29. */
  function BuildPriReg(a: bv32, b: bv32, c: bv32, d: bv32): (r: bv32)
    ensures a < 8 && b < 8 && c < 8 && d < 8 ==>
              && r & 0x1F1F_1F1F == 0
              && (r >> 5) & 7 == a && (r >> 13) & 7 == b && (r >> 21) & 7 == c && (r >> 29) & 7 == d
  {
    (d << 29) | (c << 21) | (b << 13) | (a << 5)
  }

  /** The priority byte of interrupt k (0-3) in a priority register. */
  function PriByte(r: bv32, k: bv32): (p: bv32)
    requires k < 4
    ensures p < 0x100
  {
    (r >> (8 * k)) & 0xFF
  }

  /** Each built byte holds its value in the three implemented bits. */
  lemma BuildPriRegBytes(a: bv32, b: bv32, c: bv32, d: bv32)
    requires a < 8 && b < 8 && c < 8 && d < 8
    ensures var r := BuildPriReg(a, b, c, d);
            PriByte(r, 0) == a << 5 && PriByte(r, 1) == b << 5 && PriByte(r, 2) == c << 5 && PriByte(r, 3) == d << 5
  {
  }
}
