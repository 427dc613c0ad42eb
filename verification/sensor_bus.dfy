/** The I2C transactions the sensor drivers queue (dev_Temp_sht21.c,
    dev_Humid_sht21.c, dev_Temp_tmp006.c, dev_Light_isl29023.c). Each
    driver owns one transaction record and one buffer; a transaction
    names the device address, the bytes written, the number of bytes to
    read and the driver callback to run on completion (its usrData, None
    for NULL). The reply of a read lands in the driver's buffer at the
    offset the driver gave. */
module SensorBus {
  import opened Bytes
  import opened Wrappers
  import I2c

  datatype Trans<N> = Trans(kind: I2c.TransType, addr: u8, wBuf: seq<u8>, rLen: nat, next: Option<N>)

  /** A plain write of the given bytes. */
  function WriteOf<N>(addr: u8, bytes: seq<u8>, next: Option<N>): (t: Trans<N>)
    ensures t.kind == I2c.Write && t.wBuf == bytes && t.rLen == 0 && t.next == next && t.addr == addr
  {
    Trans(I2c.Write, addr, bytes, 0, next)
  }

  /** The buffer after a reply of |reply| bytes is copied in at `off`;
      every other byte keeps its value. */
  function Place(buf: seq<u8>, off: nat, reply: seq<u8>): (r: seq<u8>)
    requires off + |reply| <= |buf|
    ensures |r| == |buf|
    ensures forall i :: 0 <= i < |reply| ==> r[off + i] == reply[i]
    ensures forall i :: 0 <= i < |buf| && !(off <= i < off + |reply|) ==> r[i] == buf[i]
  {
    buf[..off] + reply + buf[off + |reply|..]
  }

  /** Placing a reply and reading the same stretch back gives the reply. */
  lemma PlaceReadBack(buf: seq<u8>, off: nat, reply: seq<u8>)
    requires off + |reply| <= |buf|
    ensures Place(buf, off, reply)[off..off + |reply|] == reply
  {
    var r := Place(buf, off, reply);
    forall i | 0 <= i < |reply|
      ensures r[off..off + |reply|][i] == reply[i]
    {
      assert r[off + i] == reply[i];
    }
  }
}
