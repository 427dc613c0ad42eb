/** The host's view of event-handler messages (test/EventHandler.py): a
    6-byte "<HBBH" header (msgId, eh, cnt|alloc, len) followed by a payload.
    Which entity goes into the header and which into the msgId depends on
    the message direction. */
module HostEventHandler {
  import opened Wrappers
  import opened Bytes
  import P = HostProtocol

  const BROADCAST: u8 := 0
  const SERIO: u8 := 1
  const CMD: u8 := 2
  const TIMER: u8 := 3
  const BUTTON: u8 := 4
  const LED: u8 := 5
  const TEST: u8 := 6
  const TEMP: u8 := 7
  const HUMID: u8 := 8
  const LIGHT: u8 := 9
  const PWRMON: u8 := 10
  const PYTHON: u8 := 250

  /** The two message types of the id: requests/responses and
      confirms/indications. */
  type MsgType = x: int | 0 <= x < 2
  const REQ_RSP: MsgType := 0
  const CNF_IND: MsgType := 1

  /** The 7-bit message number inside an id. */
  type MsgNum = x: int | 0 <= x < 0x80

  /** EventHandlerMsgId: (eh << 8) | (type << 7) | num. The three fields
      occupy disjoint bits, so the id determines each of them. */
  function MsgId(eh: u8, t: MsgType, num: MsgNum): (id: u16)
    ensures id / 256 == eh && (id / 128) % 2 == t && id % 128 == num
  {
    eh * 256 + t * 128 + num
  }

  /** The 6-byte header. */
  datatype MsgHdr = MsgHdr(msgId: u16, eh: u8, cnt: MsgNum, alloc: bool, len: u16)

  /** EventHandlerMsgHdr(type, ehSrc, ehDst, num, len): a REQ_RSP header
      names the source in eh and the destination in the id; any other type
      names the destination in eh and the source in the id. The stored
      length counts the header too, and struct.pack refuses one above
      0xFFFF. */
  function BuildHdr(t: MsgType, src: u8, dst: u8, num: MsgNum, payloadLen: nat): (r: Result<MsgHdr, P.Error>)
    ensures r.Success? <==> payloadLen + 6 < 0x1_0000
    ensures r.Success? ==> r.value.len == payloadLen + 6 && r.value.cnt == 0 && !r.value.alloc
    ensures r.Success? ==> r.value.msgId % 128 == num && (r.value.msgId / 128) % 2 == t
    ensures r.Success? && t == REQ_RSP ==> r.value.eh == src && r.value.msgId / 256 == dst
    ensures r.Success? && t != REQ_RSP ==> r.value.eh == dst && r.value.msgId / 256 == src
  {
    var (eh, idEh) := if t == REQ_RSP then (src, dst) else (dst, src);
    if payloadLen + 6 < 0x1_0000 then Success(MsgHdr(MsgId(idEh, t, num), eh, 0, false, payloadLen + 6))
    else Failure(P.StructError)
  }

  /** setPayloadLen's packing: "<HBBH"(msgId, eh, cnt | (alloc << 7), len). */
  function EncodeHdr(h: MsgHdr): (r: seq<u8>)
    ensures |r| == 6
  {
    U16(h.msgId) + [h.eh, h.cnt + (if h.alloc then 0x80 else 0)] + U16(h.len)
  }

  /** EventHandlerMsgHdr(data=...): unpack the first 6 bytes; alloc is bit 7
      of the fourth byte and cnt its low 7 bits. */
  function DecodeHdr(b: seq<u8>): (r: Result<MsgHdr, P.Error>)
    ensures r.Success? <==> |b| >= 6
    ensures r.Success? ==> r.value.alloc == (b[3] >= 0x80) && r.value.cnt == b[3] % 0x80
    ensures r.Success? ==> r.value.eh == b[2]
  {
    if |b| < 6 then Failure(P.StructError)
    else Success(MsgHdr(Field(b, 0, 2), b[2], b[3] % 0x80, b[3] / 0x80 == 1, Field(b, 4, 2)))
  }

  /** Decoding an encoded header gives every field back. */
  lemma HdrRoundTrip(h: MsgHdr)
    ensures DecodeHdr(EncodeHdr(h)) == Success(h)
  {
    var b := EncodeHdr(h);
    assert b[0..2] == U16(h.msgId) && b[4..6] == U16(h.len);
  }

  /** The other direction: six bytes that decode re-encode to themselves. */
  lemma HdrEncodeOfDecode(b: seq<u8>)
    requires |b| >= 6
    ensures EncodeHdr(DecodeHdr(b).value) == b[..6]
  {
    var h := DecodeHdr(b).value;
    Pow256Values();
    LEOfFromLE(b[0..2]);
    LEOfFromLE(b[4..6]);
    assert U16(h.msgId) == b[0..2] && U16(h.len) == b[4..6];
    assert b[..6] == b[0..2] + [b[2], b[3]] + b[4..6];
  }

  /** A message: header and payload. */
  datatype Msg = Msg(hdr: MsgHdr, payload: seq<u8>)

  /** EventHandlerMsg(type, ehSrc, ehDst, num, payload). */
  function BuildMsg(t: MsgType, src: u8, dst: u8, num: MsgNum, payload: seq<u8>): (r: Result<Msg, P.Error>)
    ensures r.Success? <==> |payload| + 6 < 0x1_0000
    ensures r.Success? ==> r.value.payload == payload && r.value.hdr.len == |payload| + 6
  {
    var hdr :- BuildHdr(t, src, dst, num, |payload|);
    Success(Msg(hdr, payload))
  }

  /** getBinary: header bytes then payload. */
  function MsgBinary(m: Msg): (b: seq<u8>)
    ensures |b| == 6 + |m.payload| && b[6..] == m.payload
  {
    EncodeHdr(m.hdr) + m.payload
  }

  /** EventHandlerMsg(data=...): the first six bytes are the header, the
      rest is the payload. */
  function ParseMsg(data: seq<u8>): (r: Result<Msg, P.Error>)
    ensures r.Success? <==> |data| >= 6
    ensures r.Success? ==> r.value.payload == data[6..]
  {
    var hdr :- DecodeHdr(data[..if |data| < 6 then |data| else 6]);
    Success(Msg(hdr, data[6..]))
  }

  /** Parsing the bytes of a message gives the message back. */
  lemma MsgRoundTrip(m: Msg)
    ensures ParseMsg(MsgBinary(m)) == Success(m)
  {
    var b := MsgBinary(m);
    assert b[..6] == EncodeHdr(m.hdr);
    HdrRoundTrip(m.hdr);
  }

  /** The four message classes and the type each one uses. */
  datatype Kind = Req | Rsp | Cnf | Ind

  function TypeOf(k: Kind): (t: MsgType)
    ensures t == REQ_RSP <==> (k.Req? || k.Rsp?)
  {
    match k
    case Req => REQ_RSP
    case Rsp => REQ_RSP
    case Cnf => CNF_IND
    case Ind => CNF_IND
  }

  /** EventHandlerMsgReq/Rsp/Cnf/Ind: a request or response travels to the
      entity in its id; a confirm or indication names its sender in the id
      and its receiver in the header. */
  function BuildKindMsg(k: Kind, src: u8, dst: u8, num: MsgNum, payload: seq<u8>): (r: Result<Msg, P.Error>)
    ensures r.Success? <==> |payload| + 6 < 0x1_0000
    ensures r.Success? && (k.Req? || k.Rsp?) ==> r.value.hdr.msgId / 256 == dst && r.value.hdr.eh == src
    ensures r.Success? && (k.Cnf? || k.Ind?) ==> r.value.hdr.msgId / 256 == src && r.value.hdr.eh == dst
    ensures r.Success? ==> (r.value.hdr.msgId / 128) % 2 == TypeOf(k)
  {
    BuildMsg(TypeOf(k), src, dst, num, payload)
  }
}
