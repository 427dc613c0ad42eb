/** The host's command-frame codec (test/Protocol.py): a little-endian
    (len, id) header followed by a payload, carried either as raw bytes or as
    ASCII hex text. Python exceptions become Failure values. */
module HostProtocol {
  import opened Wrappers
  import opened Bytes

  /** The exceptions the Python code can raise on malformed input. */
  datatype Error = IndexError | ValueError | TypeError | StructError | AttributeError

  const VERSION: nat := 1
  const EHSTATS: nat := 2
  const EHMSG: nat := 3
  const BCAST_REG: nat := 4

  /** decodeHexString: each pair of hex digits becomes one byte, high nibble
      first. A non-hex character raises ValueError; an odd trailing digit
      raises IndexError (the pair's second index is out of range). */
  function DecodeHexString(s: string): (r: Result<seq<u8>, Error>)
    ensures r.Success? ==> |s| % 2 == 0 && |r.value| == |s| / 2
  {
    if |s| == 0 then Success([])
    else match HexValue(s[0])
      case None => Failure(ValueError)
      case Some(hi) =>
        if |s| == 1 then Failure(IndexError)
        else match HexValue(s[1])
          case None => Failure(ValueError)
          case Some(lo) =>
            match DecodeHexString(s[2..])
              case Failure(e) => Failure(e)
              case Success(rest) => Success([16 * hi + lo] + rest)
  }

  predicate AllHex(s: string) {
    forall i :: 0 <= i < |s| ==> HexValue(s[i]).Some?
  }

  /** The decode succeeds exactly on even-length all-hex text, and byte k is
      built from characters 2k (high nibble) and 2k+1 (low nibble). */
  lemma {:induction false} DecodeHexMeaning(s: string)
    ensures DecodeHexString(s).Success? <==> |s| % 2 == 0 && AllHex(s)
    ensures DecodeHexString(s).Success? ==> forall k :: 0 <= k < |s| / 2 ==>
              DecodeHexString(s).value[k] == 16 * HexValue(s[2 * k]).value + HexValue(s[2 * k + 1]).value
    decreases |s|
  {
    if |s| >= 2 && HexValue(s[0]).Some? && HexValue(s[1]).Some? {
      var t := s[2..];
      DecodeHexMeaning(t);
      assert AllHex(s) <==> AllHex(t) by {
        assert forall i :: 2 <= i < |s| ==> s[i] == t[i - 2];
      }
      if DecodeHexString(s).Success? {
        var r := DecodeHexString(s).value;
        var rest := DecodeHexString(t).value;
        assert r == [16 * HexValue(s[0]).value + HexValue(s[1]).value] + rest;
        forall k | 1 <= k < |s| / 2
          ensures r[k] == 16 * HexValue(s[2 * k]).value + HexValue(s[2 * k + 1]).value
        {
          assert r[k] == rest[k - 1];
          assert s[2 * k] == t[2 * (k - 1)] && s[2 * k + 1] == t[2 * (k - 1) + 1];
        }
      }
    } else if |s| >= 1 {
      assert !AllHex(s) || |s| == 1;
    }
  }

  /** Decoding the uppercase hex text of a byte string gives it back. */
  lemma {:induction false} DecodeHexOfHex(b: seq<u8>)
    ensures DecodeHexString(HexString(b)) == Success(b)
  {
    if |b| > 0 {
      var s := HexString(b);
      var hb := HexByte(b[0]);
      assert s == hb + HexString(b[1..]);
      assert s[2..] == HexString(b[1..]);
      assert s[0] == hb[0] && s[1] == hb[1];
      assert HexValue(s[0]) == Some(b[0] / 16) && HexValue(s[1]) == Some(b[0] % 16);
      DecodeHexOfHex(b[1..]);
      DecodeHexPair(s, b[0], b[1..]);
      assert [b[0]] + b[1..] == b;
    } else {
      assert HexString(b) == "";
    }
  }

  /** Two hex digits in front of decodable text add one byte in front. */
  lemma DecodeHexPair(s: string, b: u8, rest: seq<u8>)
    requires |s| >= 2 && HexValue(s[0]) == Some(b / 16) && HexValue(s[1]) == Some(b % 16)
    requires DecodeHexString(s[2..]) == Success(rest)
    ensures DecodeHexString(s) == Success([b] + rest)
  {
    assert 16 * (b / 16) + b % 16 == b;
  }

  /** The command header: total length of what follows the len field, and
      the command id. Python integers are unbounded, so both are nat. */
  datatype CmdHdr = CmdHdr(len: nat, id: nat)

  /** struct.pack("<HH", ...) raises unless both fields fit in 16 bits. */
  predicate Packable(h: CmdHdr) {
    h.len < 0x1_0000 && h.id < 0x1_0000
  }

  /** ProtocolCmdHdr(id=...): a header for a request with no payload yet. */
  function HdrFromId(id: nat): (h: CmdHdr)
    ensures h.id == id && h.len == 2
  {
    CmdHdr(2, id)
  }

  /** ProtocolCmdHdr(binData=...): len from bytes 0-1, id from bytes 2-3. */
  function HdrFromBin(b: seq<u8>): (r: Result<CmdHdr, Error>)
    ensures r.Success? <==> |b| >= 4
    ensures r.Success? ==> Packable(r.value) && U16(r.value.len) + U16(r.value.id) == b[..4]
  {
    if |b| < 2 then Failure(StructError)
    else if |b| < 4 then Failure(StructError)
    else
      var h := CmdHdr(Field(b, 0, 2), Field(b, 2, 2));
      LEOfFromLE(b[0..2]);
      LEOfFromLE(b[2..4]);
      Pow256Values();
      assert b[..4] == b[0..2] + b[2..4];
      Success(h)
  }

  /** ProtocolCmdHdr(strData=...): the whole string is hex-decoded first. */
  function HdrFromText(s: string): (r: Result<CmdHdr, Error>)
    ensures r.Success? ==> DecodeHexString(s).Success? && |s| >= 8
  {
    var b :- DecodeHexString(s);
    HdrFromBin(b)
  }

  /** getBinary: "<HH" packing, or struct.error when a field is too wide. */
  function HdrBinary(h: CmdHdr): (r: Result<seq<u8>, Error>)
    ensures r.Success? <==> Packable(h)
    ensures r.Success? ==> |r.value| == 4 && HdrFromBin(r.value) == Success(h)
  {
    if Packable(h) then
      var b := U16(h.len) + U16(h.id);
      LEInjective(Field(b, 0, 2), h.len, 2);
      assert b[0..2] == U16(h.len) && b[2..4] == U16(h.id);
      Success(b)
    else Failure(StructError)
  }

  /** getText: eight uppercase hex digits, len low, len high, id low, id high.
      Each byte is masked to 8 bits, so text never fails. */
  function HdrText(h: CmdHdr): (r: string)
    ensures |r| == 8
    ensures Packable(h) ==> r == HexString(HdrBinary(h).value)
  {
    var bytes := [h.len % 256, (h.len / 256) % 256, h.id % 256, (h.id / 256) % 256];
    if Packable(h) then
      assert bytes == HdrBinary(h).value;
      HexString(bytes)
    else HexString(bytes)
  }

  /** Text and binary round trips of a header. */
  lemma HdrRoundTrips(h: CmdHdr)
    requires Packable(h)
    ensures HdrFromBin(HdrBinary(h).value) == Success(h)
    ensures HdrFromText(HdrText(h)) == Success(h)
  {
    DecodeHexOfHex(HdrBinary(h).value);
  }

  /** A request: header and payload. */
  datatype Req = Req(hdr: CmdHdr, data: seq<u8>)

  /** ProtocolReq(id): an empty request whose len covers only the id. */
  function NewReq(id: nat): (r: Req)
    ensures r.hdr.len == 2 + |r.data| && r.hdr.id == id && r.data == []
  {
    Req(HdrFromId(id), [])
  }

  /** getBinary: header bytes followed by the payload. */
  function ReqBinary(r: Req): (b: Result<seq<u8>, Error>)
    ensures b.Success? <==> Packable(r.hdr)
    ensures b.Success? ==> |b.value| == 4 + |r.data|
    ensures b.Success? ==> b.value[..4] == HdrBinary(r.hdr).value && b.value[4..] == r.data
  {
    var hdr :- HdrBinary(r.hdr);
    Success(hdr + r.data)
  }

  const REQ_SOM: string := "$"
  const CNF_SOM: string := "!"
  const TRAILER: string := "\n\r"

  /** getText of a request: "$", header hex, payload hex, "\n\r". */
  function ReqText(r: Req): (s: string)
    ensures |s| == 1 + 8 + 2 * |r.data| + 2
    ensures s[0] == '$' && s[|s| - 2..] == "\n\r"
    ensures Packable(r.hdr) ==> s == "$" + HexString(ReqBinary(r).value) + "\n\r"
  {
    var s := REQ_SOM + HdrText(r.hdr) + HexString(r.data) + TRAILER;
    FrameShape(REQ_SOM, HdrText(r.hdr) + HexString(r.data));
    if Packable(r.hdr) then
      HexStringAppend(HdrBinary(r.hdr).value, r.data);
      assert s == "$" + (HdrText(r.hdr) + HexString(r.data)) + "\n\r";
      s
    else s
  }

  /** A one-character start, a body and the trailer. */
  lemma FrameShape(som: string, body: string)
    requires |som| == 1
    ensures var s := som + body + TRAILER;
            |s| == 1 + |body| + 2 && s[0] == som[0] && s[|s| - 2..] == "\n\r" && s[1..|s| - 2] == body
  {
    var s := som + body + TRAILER;
    assert s[|s| - 2..] == TRAILER;
  }

  /** A parsed confirm. `Unparsed` is a ProtocolCnf whose text did not pass
      the start-of-message test: valid is False and it has no header. */
  datatype Cnf = Unparsed | Cnf(valid: bool, hdr: CmdHdr, data: seq<u8>)

  /** ProtocolCnf(strData=...): at least 9 characters starting with '!'; the
      header comes from the decode of everything after '!', the data from
      the decode of characters 9 onward. */
  function CnfFromText(s: string): (r: Result<Cnf, Error>)
    ensures !(|s| >= 9 && s[0] == '!') ==> r == Success(Unparsed)
    ensures r.Success? && r.value.Cnf? ==>
              r.value.valid && |s| >= 9 && s[0] == '!' && DecodeHexString(s[9..]) == Success(r.value.data)
  {
    if |s| >= 9 && s[0] == '!' then
      var hdr :- HdrFromText(s[1..]);
      var data :- DecodeHexString(s[9..]);
      Success(Cnf(true, hdr, data))
    else Success(Unparsed)
  }

  /** ProtocolCnf(binData=...): always valid; the data is everything after
      the 4 header bytes. */
  function CnfFromBin(b: seq<u8>): (r: Result<Cnf, Error>)
    ensures r.Success? <==> |b| >= 4
    ensures r.Success? ==> r.value.Cnf? && r.value.valid && r.value.data == b[4..]
  {
    var hdr :- HdrFromBin(b);
    Success(Cnf(true, hdr, b[4..]))
  }

  /** getText of a confirm: "!", header hex, data hex, "\n\r". */
  function CnfText(hdr: CmdHdr, data: seq<u8>): (s: string)
    ensures |s| == 1 + 8 + 2 * |data| + 2
  {
    CNF_SOM + HdrText(hdr) + HexString(data) + TRAILER
  }

  /** Only the first four bytes matter to the header decode. */
  lemma HdrFromBinPrefix(b: seq<u8>)
    requires |b| >= 4
    ensures HdrFromBin(b) == HdrFromBin(b[..4])
  {
    assert b[..4][0..2] == b[0..2] && b[..4][2..4] == b[2..4];
  }

  /** A confirm's text without its trailer parses back to the same header
      and data. */
  lemma CnfTextRoundTrip(hdr: CmdHdr, data: seq<u8>)
    requires Packable(hdr)
    ensures var s := CnfText(hdr, data);
            CnfFromText(s[..|s| - 2]) == Success(Cnf(true, hdr, data))
  {
    var s := CnfText(hdr, data);
    var hb := HdrBinary(hdr).value;
    var body := hb + data;
    var line := s[..|s| - 2];
    CnfLine(hdr, data);
    DecodeHexOfHex(body);
    DecodeHexOfHex(data);
    assert body[..4] == hb;
    HdrFromBinPrefix(body);
    assert HdrFromText(line[1..]) == Success(hdr);
  }

  /** The confirm line without its trailer: "!", then the hex of the header
      and data, the data's hex starting at index 9. */
  lemma CnfLine(hdr: CmdHdr, data: seq<u8>)
    requires Packable(hdr)
    ensures var s := CnfText(hdr, data);
            var line := s[..|s| - 2];
            |line| >= 9 && line[0] == '!' &&
            line[1..] == HexString(HdrBinary(hdr).value + data) && line[9..] == HexString(data)
  {
    var s := CnfText(hdr, data);
    var hb := HdrBinary(hdr).value;
    var line := s[..|s| - 2];
    HexStringAppend(hb, data);
    assert s == "!" + HexString(hb) + HexString(data) + "\n\r";
    assert line == "!" + HexString(hb) + HexString(data);
  }

  /** The trailer is not hex: a confirm line that still carries "\n\r" is
      rejected with ValueError. */
  lemma CnfTextWithTrailerFails(hdr: CmdHdr, data: seq<u8>)
    requires Packable(hdr)
    ensures CnfFromText(CnfText(hdr, data)).Failure?
  {
    var s := CnfText(hdr, data);
    assert s[1..][|s| - 3] == '\n';
    assert HexValue('\n').None?;
    DecodeHexMeaning(s[1..]);
  }

  /** The VERSION confirm: "<LL" hardware model and firmware version. */
  datatype VersionCnf = VersionCnf(valid: bool, hwModel: u32, fwVer: u32)

  function ParseVersionCnf(c: Cnf): (r: Result<VersionCnf, Error>)
    ensures c.Unparsed? ==> r == Failure(AttributeError)
    ensures r.Success? <==> c.Cnf? && |c.data| == 8
    ensures r.Success? ==> r.value.valid == (c.valid && c.hdr.id == VERSION)
    ensures r.Success? ==> U32(r.value.hwModel) + U32(r.value.fwVer) == c.data
  {
    match c
    case Unparsed => Failure(AttributeError)
    case Cnf(valid, hdr, data) =>
      if |data| != 8 then Failure(StructError)
      else
        Pow256Values();
        LEOfFromLE(data[0..4]);
        LEOfFromLE(data[4..8]);
        assert data == data[0..4] + data[4..8];
        Success(VersionCnf(valid && hdr.id == VERSION, Field(data, 0, 4), Field(data, 4, 4)))
  }

  /** The EHSTATS confirm: "<LLLLBBB" framework counters. */
  datatype EhStatsCnf = EhStatsCnf(valid: bool, numAlloc: u32, numFree: u32, numSend: u32,
                                   numBcast: u32, bcastMapTotal: u8, bcastMapAvail: u8, numEhId: u8)

  function ParseEhStatsCnf(c: Cnf): (r: Result<EhStatsCnf, Error>)
    ensures c.Unparsed? ==> r == Failure(AttributeError)
    ensures r.Success? <==> c.Cnf? && |c.data| == 19
    ensures r.Success? ==> r.value.valid == (c.valid && c.hdr.id == EHSTATS)
    ensures r.Success? ==>
              c.data == U32(r.value.numAlloc) + U32(r.value.numFree) + U32(r.value.numSend)
                        + U32(r.value.numBcast)
                        + [r.value.bcastMapTotal, r.value.bcastMapAvail, r.value.numEhId]
  {
    match c
    case Unparsed => Failure(AttributeError)
    case Cnf(valid, hdr, data) =>
      if |data| != 19 then Failure(StructError)
      else
        Pow256Values();
        LEOfFromLE(data[0..4]);
        LEOfFromLE(data[4..8]);
        LEOfFromLE(data[8..12]);
        LEOfFromLE(data[12..16]);
        assert data == data[0..4] + data[4..8] + data[8..12] + data[12..16] + [data[16], data[17], data[18]];
        Success(EhStatsCnf(valid && hdr.id == EHSTATS,
                           Field(data, 0, 4), Field(data, 4, 4), Field(data, 8, 4), Field(data, 12, 4),
                           data[16], data[17], data[18]))
  }

  /** BCAST_REG request: payload "<BH"(eh, msgId), len 2 + 3. */
  function BcastRegReq(eh: u8, msgId: u16): (r: Req)
    ensures r.hdr == CmdHdr(5, BCAST_REG) && |r.data| == 3
    ensures r.data[0] == eh && FromLE(r.data[1..]) == msgId
  {
    var data := [eh] + U16(msgId);
    assert data[1..] == U16(msgId);
    Req(CmdHdr(2 + |data|, BCAST_REG), data)
  }

  /** Typed confirms without a payload (BCAST_REG, EHMSG): valid is cleared
      when the id does not match. */
  function ParseEmptyCnf(c: Cnf, expected: nat): (r: Result<bool, Error>)
    ensures r.Success? <==> c.Cnf?
    ensures r.Success? ==> (r.value <==> c.valid && c.hdr.id == expected)
  {
    match c
    case Unparsed => Failure(AttributeError)
    case Cnf(valid, hdr, _) => Success(if hdr.id != expected then false else valid)
  }

  /** EHMSG request: the event-handler message bytes, len 2 + their length. */
  function EhMsgReq(msg: seq<u8>): (r: Req)
    ensures r.hdr.id == EHMSG && r.hdr.len == 2 + |msg| && r.data == msg
  {
    Req(CmdHdr(2 + |msg|, EHMSG), msg)
  }

  /** An EHMSG payload of 0xFFFE bytes makes len 0x10000, which the binary
      form rejects with struct.error. */
  lemma EhMsgLenOverflow(msg: seq<u8>)
    requires |msg| == 0xFFFE
    ensures EhMsgReq(msg).hdr == CmdHdr(0x1_0000, EHMSG)
    ensures ReqBinary(EhMsgReq(msg)) == Failure(StructError)
  {
  }

  /** The text form of that header silently wraps the length to 0. */
  lemma EhMsgLenTextWraps()
    ensures HdrText(CmdHdr(0x1_0000, EHMSG)) == "00000300"
  {
    var h := CmdHdr(0x1_0000, EHMSG);
    var bytes: seq<u8> := [0, 0, 3, 0];
    assert [h.len % 256, (h.len / 256) % 256, h.id % 256, (h.id / 256) % 256] == bytes;
    assert HexByte(0) == "00" && HexByte(3) == "03";
    assert HexString(bytes[3..]) == "00";
    assert HexString(bytes[2..]) == "03" + HexString(bytes[3..]);
    assert HexString(bytes[1..]) == "00" + HexString(bytes[2..]);
    assert HexString(bytes) == "00" + HexString(bytes[1..]);
  }
}
