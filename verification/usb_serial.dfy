/** The USB serial-number string descriptor (bsp_Usb.c). It is a string
    descriptor in the layout of section 9.6.7 of the USB 2.0
    specification: a length byte, the descriptor type STRING (3), then
    twelve UTF-16LE code units. At start-up the code units become the
    eight hex digits of the manufacturing product id followed by the four
    low hex digits of the serial number, most significant first. */
module UsbSerial {
  import opened Bytes
  import opened Wrappers
  import Bits

  const DTYPE_STRING: u8 := 3
  const DIGITS: nat := 12
  const LENGTH: nat := 2 + DIGITS * 2

  function Pow16(k: nat): (r: nat)
    ensures r >= 1
  {
    if k == 0 then 1 else 16 * Pow16(k - 1)
  }

  /** The n low hex digits of x, most significant first. */
  function Digits(x: nat, n: nat): (r: seq<nat>)
    ensures |r| == n && forall j :: 0 <= j < n ==> r[j] < 16
  {
    if n == 0 then [] else Digits(x / 16, n - 1) + [x % 16]
  }

  /** The value of a string of hex digits, most significant first. */
  function Value(ds: seq<nat>): nat {
    if ds == [] then 0 else 16 * Value(ds[..|ds| - 1]) + ds[|ds| - 1]
  }

  /** Digit j is what the source's shift-and-mask picks out: the digit of
      weight 16^(n-1-j). */
  lemma {:induction false} DigitAt(x: nat, n: nat, j: nat)
    requires j < n
    ensures Digits(x, n)[j] == (x / Pow16(n - 1 - j)) % 16
  {
    if j < n - 1 {
      DigitAt(x / 16, n - 1, j);
      DivDiv16(x, n - 2 - j);
    }
  }

  lemma DivDiv16(x: nat, k: nat)
    ensures x / 16 / Pow16(k) == x / Pow16(k + 1)
  {
    Bits.DivDiv(x, 16, Pow16(k));
  }

  /** x modulo 16p, split at its last hex digit. */
  lemma ModStep(x: nat, p: nat)
    requires p > 0
    ensures x % (16 * p) == 16 * ((x / 16) % p) + x % 16
  {
    var q := x / 16;
    var a := q / p;
    var b := q % p;
    Bits.DivModId(x, 16);
    Bits.DivModId(q, p);
    assert 16 * q == a * (16 * p) + 16 * b;
    assert x == a * (16 * p) + (16 * b + x % 16);
    DivMul(a, 16 * b + x % 16, 16 * p);
  }

  /** Reading the digits back gives x modulo 16^n. */
  lemma {:induction false} ValueOfDigits(x: nat, n: nat)
    ensures Value(Digits(x, n)) == x % Pow16(n)
  {
    if n > 0 {
      var ds := Digits(x, n);
      assert ds[..n - 1] == Digits(x / 16, n - 1);
      ValueOfDigits(x / 16, n - 1);
      ModStep(x, Pow16(n - 1));
    }
  }

  /** A digit as its ASCII byte from the table "0123456789ABCDEF". */
  function Ascii(d: nat): (b: u8)
    requires d < 16
    ensures HexValue(b as char) == Some(d)
    ensures d < 10 ==> b == '0' as int + d
    ensures d >= 10 ==> b == 'A' as int + (d - 10)
  {
    if d < 10 then 48 + d else 55 + d
  }

  /** Each digit as a UTF-16LE code unit: the ASCII byte, then 0. */
  function Units(ds: seq<nat>): (r: seq<u8>)
    requires forall j :: 0 <= j < |ds| ==> ds[j] < 16
    ensures |r| == 2 * |ds|
    ensures forall i :: 0 <= i < |r| ==> r[i] == if i % 2 == 1 then 0 else Ascii(ds[i / 2])
  {
    seq(2 * |ds|, i requires 0 <= i < 2 * |ds| => if i % 2 == 1 then 0 else Ascii(ds[i / 2]))
  }

  /** The twelve digits the firmware writes: the product id's eight, then
      the serial number's four. */
  function SerialDigits(productId: u32, serialNum: u16): (ds: seq<nat>)
    ensures |ds| == DIGITS
    ensures forall k :: 0 <= k < 8 ==> ds[k] == (productId / Pow16(7 - k)) % 16
    ensures forall k :: 8 <= k < DIGITS ==> ds[k] == (serialNum / Pow16(11 - k)) % 16
  {
    var ds := Digits(productId, 8) + Digits(serialNum, 4);
    forall k | 0 <= k < 8
      ensures ds[k] == (productId / Pow16(7 - k)) % 16
    {
      DigitAt(productId, 8, k);
    }
    forall k | 8 <= k < DIGITS
      ensures ds[k] == (serialNum / Pow16(11 - k)) % 16
    {
      DigitAt(serialNum, 4, k - 8);
    }
    ds
  }

  /** bsp_Usb_serialNumberString after bsp_Usb_init: the serial number is
      the uint16 the manufacturing record holds. Byte 2 + 2k is the ASCII
      digit k of SerialDigits; every other byte after the header is 0. */
  function SerialString(productId: u32, serialNum: u16): (r: seq<u8>)
    ensures |r| == LENGTH && r[0] == LENGTH && r[1] == DTYPE_STRING
    ensures forall i :: 2 <= i < LENGTH ==>
              r[i] == if i % 2 == 1 then 0 else Ascii(SerialDigits(productId, serialNum)[(i - 2) / 2])
  {
    [LENGTH, DTYPE_STRING] + Units(SerialDigits(productId, serialNum))
  }

  /** A host's reading of the code units: the digit of each, None when a
      unit is not an ASCII hex digit. */
  function ParseUnits(s: seq<u8>): (r: Option<seq<nat>>)
    requires |s| % 2 == 0
    ensures r.Some? ==> |r.value| == |s| / 2 && forall j :: 0 <= j < |r.value| ==> r.value[j] < 16
    ensures r.Some? <==> forall j :: 0 <= j < |s| / 2 ==> HexValue(s[2 * j] as char).Some? && s[2 * j + 1] == 0
  {
    if forall j :: 0 <= j < |s| / 2 ==> HexValue(s[2 * j] as char).Some? && s[2 * j + 1] == 0 then
      Some(seq(|s| / 2, j requires 0 <= j < |s| / 2 => HexValue(s[2 * j] as char).value))
    else None
  }

  /** A host's reading of the descriptor: the product id and serial number
      it spells, None when the header or any unit is not a hex digit. */
  function Parse(s: seq<u8>): (r: Option<(nat, nat)>)
    ensures r.Some? ==> |s| == LENGTH && s[0] == LENGTH && s[1] == DTYPE_STRING
  {
    if |s| != LENGTH || s[0] != LENGTH || s[1] != DTYPE_STRING then None
    else
      match ParseUnits(s[2..])
      case None => None
      case Some(ds) => Some((Value(ds[..8]), Value(ds[8..])))
  }

  lemma ParseUnitsOfUnits(ds: seq<nat>)
    requires forall j :: 0 <= j < |ds| ==> ds[j] < 16
    ensures ParseUnits(Units(ds)) == Some(ds)
  {
    var u := Units(ds);
    forall j | 0 <= j < |ds|
      ensures HexValue(u[2 * j] as char) == Some(ds[j]) && u[2 * j + 1] == 0
    {
      assert u[2 * j] == Ascii(ds[j]);
    }
    var p := ParseUnits(u);
    assert p.value == ds;
  }

  lemma ValueOfSmall(x: nat, n: nat)
    requires x < Pow16(n)
    ensures Value(Digits(x, n)) == x
  {
    ValueOfDigits(x, n);
  }

  lemma Pow16Values()
    ensures Pow16(4) == 0x1_0000 && Pow16(8) == 0x1_0000_0000
  {
    assert Pow16(2) == 0x100;
    assert Pow16(4) == 0x1_0000;
    assert Pow16(6) == 0x100_0000;
  }

  /** The descriptor gives back the product id and the serial number: no
      digit is lost or reordered. */
  lemma SerialStringRoundTrip(productId: u32, serialNum: u16)
    ensures Parse(SerialString(productId, serialNum)) == Some((productId, serialNum))
  {
    var ds := SerialDigits(productId, serialNum);
    var u := Units(ds);
    var s := SerialString(productId, serialNum);
    assert s == [LENGTH, DTYPE_STRING] + u;
    assert s[2..] == u;
    ParseUnitsOfUnits(ds);
    assert Parse(s) == Some((Value(ds[..8]), Value(ds[8..])));
    assert ds[..8] == Digits(productId, 8) && ds[8..] == Digits(serialNum, 4);
    Pow16Values();
    ValueOfSmall(productId, 8);
    ValueOfSmall(serialNum, 4);
  }
}
