/** What the two SHT21 drivers (dev_Temp_sht21.c and dev_Humid_sht21.c)
    share: the device's commands, the user-register resolution bits and
    the raw measurement word. The user register keeps the resolution in
    two bits that are not adjacent: bit 7 holds resolution bit 1 and bit
    0 holds resolution bit 0. A measurement is two data bytes, most
    significant first, whose two lowest bits are status bits, then a CRC
    byte. */
module Sht21 {
  import opened Bytes

  const I2C_ADDR: u8 := 0x40
  const CMD_TRIG_T_HOLD: u8 := 0xE3
  const CMD_TRIG_RH_HOLD: u8 := 0xE5
  const CMD_REG_WRITE: u8 := 0xE6
  const CMD_REG_READ: u8 := 0xE7
  const CMD_REG_RESET: u8 := 0xFE

  /** BSP_PLATFORM_SHT21_RESOLUTION: RH11_T11. */
  const PLATFORM_RESOLUTION: bv8 := 0x03

  /** The resolution the user register selects. */
  function ResOf(reg: bv8): (res: bv8)
    ensures res < 4
  {
    ((reg >> 6) & 0x02) | (reg & 0x01)
  }

  /** DEV_*_REG_SET_RES as written: resolution bit 1 is shifted by 7, to
      bit 8 of the int the macro computes, and the assignment to the
      uint8_t register drops it. */
  function SetResAsWritten(reg: bv8, res: bv8): (r: bv8)
    ensures r & 0x7E == reg & 0x7E
    ensures ResOf(r) == res & 0x01
  {
    var wide: bv16 := (reg as bv16 & !0x81) | (((res as bv16 & 0x02) << 7) | (res as bv16 & 0x01));
    (wide & 0xFF) as bv8
  }

  /** DEV_*_REG_SET_RES as intended: bit 7 from resolution bit 1, bit 0
      from resolution bit 0, bits 1-6 kept. */
  function SetRes(reg: bv8, res: bv8): (r: bv8)
    ensures r & 0x7E == reg & 0x7E
    ensures ResOf(r) == res & 0x03
  {
    (reg & !0x81) | (((res & 0x02) << 6) | (res & 0x01))
  }

  /** Setting the resolution twice is setting it once. */
  lemma SetResIdempotent(reg: bv8, res: bv8)
    ensures SetRes(SetRes(reg, res), res) == SetRes(reg, res)
  {
  }

  /** Two registers that agree on bits 1-6 and on the resolution they
      select are equal: SetRes changes nothing but the resolution. */
  lemma SetResOnlyResolution(reg: bv8, res: bv8)
    requires res < 4
    ensures var r := SetRes(reg, res);
            r & 0x7E == reg & 0x7E && ResOf(r) == res && (ResOf(reg) == res ==> r == reg)
  {
  }

  /** The platform's resolution RH11_T11 is written as RH8_T12, whatever
      the register held before: the high resolution bit is lost. */
  lemma SetResAsWrittenLosesPlatformResolution(reg: bv8)
    ensures ResOf(SetResAsWritten(reg, PLATFORM_RESOLUTION)) == 0x01
    ensures ResOf(SetRes(reg, PLATFORM_RESOLUTION)) == PLATFORM_RESOLUTION
  {
  }

  /** The measurement word `b0 << 8 | (b1 & 0xFC)`: the data bytes with
      the two status bits cleared. */
  function Raw(b0: u8, b1: u8): (r: u16)
    ensures r % 4 == 0
    ensures r / 256 == b0 && r % 256 == b1 - b1 % 4
  {
    b0 * 256 + b1 / 4 * 4
  }

  /** A word whose status bits are clear is read back from its own bytes,
      and the status bits never reach the word. */
  lemma RawRoundTrip(v: u16, status: nat)
    requires v % 4 == 0 && status < 4
    ensures Raw(v / 256, v % 256 + status) == v
  {
  }
}
