/** The command event handler (svc_CmdEh.c): the serial console, where a
    line starting with '$' is a binary command spelled in hex digits and
    anything else is a text command; the USB bulk reader; the serial and
    bulk senders; and the forwarding of unhandled messages to the host. */
module CmdEh {
  import opened Wrappers
  import opened Bytes
  import C = Console
  import P = HostProtocol
  import M = MsgFwk
  import Cmds = CmdEhCmds
  import Tst

  const BUFFER_SIZE: nat := 512
  const BIN_LEN_BYTES: nat := 2
  /** Both history buffers, used back to back by a binary command. */
  const BIN_LEN_MAX: nat := 1024
  const BIN_START: u8 := 0x24
  const LF: u8 := 0x0A
  const CR: u8 := 0x0D

  /** svc_CmdEh_asciiToDec: the value of a hex digit of either case, and 0
      for any other character. */
  function AsciiToDec(c: u8): (d: nat)
    ensures d < 16
    ensures HexValue(c as char).Some? ==> d == HexValue(c as char).value
    ensures HexValue(c as char).None? ==> d == 0
  {
    if 0x30 <= c <= 0x39 then c - 0x30
    else if 0x61 <= c <= 0x66 then c - 0x61 + 10
    else if 0x41 <= c <= 0x46 then c - 0x41 + 10
    else 0
  }

  /** The bytes a host string is sent as (its characters are ASCII). */
  function AsciiOf(s: string): (r: seq<u8>)
    ensures |r| == |s|
  {
    seq(|s|, i requires 0 <= i < |s| => (s[i] as int) % 256)
  }

  lemma AsciiOfAppend(a: string, b: string)
    ensures AsciiOf(a + b) == AsciiOf(a) + AsciiOf(b)
  {
    assert forall i :: 0 <= i < |a + b| ==> AsciiOf(a + b)[i] == (AsciiOf(a) + AsciiOf(b))[i];
  }

  /** The ASCII code of an uppercase hex digit, as the host prints it. */
  function HexDigit(n: nat): (c: u8)
    requires n < 16
    ensures AsciiToDec(c) == n && c as char == HexChar(n)
  {
    if n < 10 then 0x30 + n else 0x37 + n
  }

  /** The two ASCII digits "%02X" prints for a byte; read back digit by
      digit they give its high and low nibble. */
  function HexDigits(b: u8): (r: seq<u8>)
    ensures |r| == 2 && AsciiToDec(r[0]) == b / 16 && AsciiToDec(r[1]) == b % 16
  {
    [HexDigit(b / 16), HexDigit(b % 16)]
  }

  /** The ASCII digits of a byte string, two per byte. */
  function HexText(bs: seq<u8>): (r: seq<u8>)
    ensures |r| == 2 * |bs|
  {
    if bs == [] then [] else HexDigits(bs[0]) + HexText(bs[1..])
  }

  lemma HexDigitsAreAscii(b: u8)
    ensures HexDigits(b) == AsciiOf(HexByte(b))
  {
    var h := HexByte(b);
    assert h == [HexChar(b / 16), HexChar(b % 16)];
    var a := AsciiOf(h);
    assert a[0] == HexDigit(b / 16) && a[1] == HexDigit(b % 16);
    assert a == [a[0], a[1]];
  }

  /** HexText is the host's hex string, sent as ASCII. */
  lemma {:induction false} HexTextIsAscii(bs: seq<u8>)
    ensures HexText(bs) == AsciiOf(HexString(bs))
  {
    if bs != [] {
      HexTextIsAscii(bs[1..]);
      HexDigitsAreAscii(bs[0]);
      AsciiOfAppend(HexByte(bs[0]), HexString(bs[1..]));
    }
  }

  lemma HexTextAppend(a: seq<u8>, b: seq<u8>)
    ensures HexText(a + b) == HexText(a) + HexText(b)
  {
    HexTextIsAscii(a + b);
    HexTextIsAscii(a);
    HexTextIsAscii(b);
    HexStringAppend(a, b);
    AsciiOfAppend(HexString(a), HexString(b));
  }

  /** The statics of svc_CmdEh_bufferAddChar with the console buffers.
      `bin` is what the binary command has stored so far; in memory it is
      the front of buffer 0, running on into buffer 1. */
  datatype St = St(lines: C.Lines, binMode: bool, lenDone: bool, digits: i16,
                   lenBytes: seq<u8>, lenIdx: nat, data: u8, bin: seq<u8>)

  /** While the length is read, the digit count runs 4, 3, 2, 1 and the
      length-byte index follows it; a binary command always fills buffer 0
      and no escape sequence is pending. */
  predicate Inv(st: St) {
    C.Valid(st.lines) && |st.lenBytes| == BIN_LEN_BYTES &&
    (st.binMode ==> st.lines.sel == 0 && st.lines.escCnt == 0) &&
    (st.binMode && !st.lenDone ==> 1 <= st.digits <= 4 && st.lenIdx == (4 - st.digits) / 2)
  }

  /** The state at boot (svc_CmdEh_init, bufferInit and the statics'
      initialisers). */
  function Init(): (st: St)
    ensures Inv(st) && AtStart(st)
  {
    St(C.Init(), false, false, 0, [0, 0], 0, 0, [])
  }

  /** A character may open a binary command: no binary command is running,
      the current line is empty and no escape sequence is pending. */
  predicate AtStart(st: St)
    requires C.Valid(st.lines)
  {
    !st.binMode && C.Cur(st.lines).content == [] && st.lines.escCnt == 0
  }

  /** A completed command: the binary buffer, or the text line. */
  datatype Cmd = Binary(buf: seq<u8>) | Text(line: C.Buffer)
  datatype Stepped = Stepped(st: St, cmd: Option<Cmd>)

  /** svc_CmdEh_bufferAddChar. */
  function AddChar(st: St, c: u8): (r: Stepped)
    requires Inv(st)
    ensures Inv(r.st)
  {
    if AtStart(st) then
      var st1 := st.(binMode := c == BIN_START, lenBytes := [0, 0], lenIdx := 0, lenDone := false, digits := 4, data := 0);
      if c == BIN_START then
        Stepped(st1.(lines := C.SetCur(st.lines.(sel := 0), C.Empty), bin := []), None)
      else TextStep(st1, c)
    else if st.binMode && !st.lenDone then LenDigit(st, c)
    else if st.binMode then DataDigit(st, c)
    else TextStep(st, c)
  }

  /** What one character does in each phase: an opening '$' starts the
      length, length digits never complete a command, text mode stays text
      mode, and a completed binary command extends what was stored by at
      most the last byte and leaves the console at the start of a line. */
  lemma AddCharPhases(st: St, c: u8)
    requires Inv(st)
    ensures var r := AddChar(st, c);
            (AtStart(st) && c == BIN_START ==>
                r.cmd.None? && r.st.binMode && !r.st.lenDone && r.st.digits == 4 && r.st.bin == []) &&
            (st.binMode && !st.lenDone ==> r.cmd.None? && r.st.binMode) &&
            (!st.binMode && !(AtStart(st) && c == BIN_START) ==> !r.st.binMode) &&
            (r.cmd.Some? && r.cmd.value.Binary? ==>
                st.binMode && st.lenDone && AtStart(r.st) && r.st.lines.sel == 1 &&
                st.bin <= r.cmd.value.buf && |r.cmd.value.buf| <= |st.bin| + 1)
  {
  }

  /** Outside binary mode every character but an opening '$' is the
      console's: a completed line becomes a text command. */
  lemma TextCharsGoToConsole(st: St, c: u8)
    requires Inv(st) && !st.binMode && !(AtStart(st) && c == BIN_START)
    ensures var r := AddChar(st, c);
            var e := C.TextChar(st.lines, c, BUFFER_SIZE);
            r.cmd == (if e.done then Some(Text(C.Cur(e.lines))) else None) &&
            r.st.lines == (if e.done then C.Next(e.lines) else e.lines)
  {
  }

  /** A text-mode character; a completed line is handed on and the next
      history slot is selected and reset. */
  function TextStep(st: St, c: u8): (r: Stepped)
    requires Inv(st) && !st.binMode
    ensures Inv(r.st) && !r.st.binMode
  {
    var e := C.TextChar(st.lines, c, BUFFER_SIZE);
    if e.done then Stepped(st.(lines := C.Next(e.lines)), Some(Text(C.Cur(e.lines))))
    else Stepped(st.(lines := e.lines), None)
  }

  /** A digit of the 16-bit length: every second digit stores a byte, both
      in the length bytes and in the buffer; after the fourth the remaining
      digit count is twice the little-endian length, kept in an int16. */
  function LenDigit(st: St, c: u8): (r: Stepped)
    requires Inv(st) && st.binMode && !st.lenDone
    ensures Inv(r.st) && r.cmd.None? && r.st.binMode
    ensures st.bin <= r.st.bin && |r.st.bin| <= |st.bin| + 1
  {
    var data := (st.data * 16 + AsciiToDec(c)) % 256;
    var digits := st.digits - 1;
    var store := digits % 2 == 0;
    var lenBytes := if store then st.lenBytes[st.lenIdx := data] else st.lenBytes;
    var lenIdx := if store then st.lenIdx + 1 else st.lenIdx;
    var bin := if store then st.bin + [data] else st.bin;
    if digits <= 0 then
      var total := 2 * Field(lenBytes, 0, 2);
      Stepped(st.(lenBytes := lenBytes, lenIdx := lenIdx, bin := bin, lenDone := true,
                  digits := I16Of(total % 0x1_0000), data := 0), None)
    else
      Stepped(st.(lenBytes := lenBytes, lenIdx := lenIdx, bin := bin, digits := digits,
                  data := if store then 0 else data), None)
  }

  /** A digit of the command itself: the count drops by one in int16, every
      second digit stores a byte, and the command is complete once the count
      is no longer positive. */
  function DataDigit(st: St, c: u8): (r: Stepped)
    requires Inv(st) && st.binMode && st.lenDone
    ensures Inv(r.st)
    ensures r.cmd.Some? ==> r.cmd.value.Binary? && r.st == Finish(r.st.(lines := st.lines, binMode := true, bin := r.cmd.value.buf))
    ensures r.cmd.Some? ==> st.bin <= r.cmd.value.buf && |r.cmd.value.buf| <= |st.bin| + 1
    ensures r.cmd.None? ==> r.st.binMode && st.bin <= r.st.bin && |r.st.bin| <= |st.bin| + 1
  {
    var data := (st.data * 16 + AsciiToDec(c)) % 256;
    var digits := I16Of((st.digits - 1) % 0x1_0000);
    var store := digits % 2 == 0;
    var bin := if store then st.bin + [data] else st.bin;
    var st2 := st.(digits := digits, data := if store then 0 else data, bin := bin);
    if digits <= 0 then Stepped(Finish(st2), Some(Binary(bin))) else Stepped(st2, None)
  }

  /** A completed binary command: buffer 0 is reset, binary mode ends, and
      the next history slot is selected and reset. */
  function Finish(st: St): (r: St)
    requires C.Valid(st.lines)
    ensures C.Valid(r.lines) && !r.binMode && r.bin == []
    ensures r.lines.sel == (st.lines.sel + 1) % C.HISTORY && C.Cur(r.lines) == C.Empty
    ensures r.lines.escCnt == st.lines.escCnt
  {
    st.(lines := C.Next(C.SetCur(st.lines, C.Empty)), binMode := false, bin := [])
  }

  /** The state after a run of characters and the commands they completed. */
  datatype Fed = Fed(st: St, cmds: seq<Cmd>)

  function CmdList(c: Option<Cmd>): (r: seq<Cmd>)
    ensures |r| <= 1 && (c.Some? <==> |r| == 1) && (c.Some? ==> r == [c.value])
  {
    if c.Some? then [c.value] else []
  }

  /** Characters fed in order through a step function. */
  function Run(step: (St, u8) -> Stepped, st: St, cs: seq<u8>): (r: Fed)
    ensures |r.cmds| <= |cs|
    decreases |cs|
  {
    if cs == [] then Fed(st, [])
    else
      var s := step(st, cs[0]);
      var rest := Run(step, s.st, cs[1..]);
      Fed(rest.st, CmdList(s.cmd) + rest.cmds)
  }

  /** Running two runs of characters is running their concatenation. */
  lemma {:induction false} RunAppend(step: (St, u8) -> Stepped, st: St, a: seq<u8>, b: seq<u8>)
    ensures var ra := Run(step, st, a);
            var rb := Run(step, ra.st, b);
            Run(step, st, a + b) == Fed(rb.st, ra.cmds + rb.cmds)
    decreases |a|
  {
    if a == [] {
      assert a + b == b;
    } else {
      assert (a + b)[0] == a[0] && (a + b)[1..] == a[1..] + b;
      RunAppend(step, step(st, a[0]).st, a[1..], b);
    }
  }

  /** AddChar, on any state. */
  function Step(st: St, c: u8): (r: Stepped)
    ensures Inv(st) ==> Inv(r.st)
  {
    if Inv(st) then AddChar(st, c) else Stepped(st, None)
  }

  lemma {:induction false} RunKeepsInv(st: St, cs: seq<u8>)
    requires Inv(st)
    ensures Inv(Run(Step, st, cs).st)
    decreases |cs|
  {
    if cs != [] {
      RunKeepsInv(Step(st, cs[0]).st, cs[1..]);
    }
  }

  /** The characters of one DATA_IND, through svc_CmdEh_bufferAddChar. */
  function Feed(st: St, cs: seq<u8>): (r: Fed)
    requires Inv(st)
    ensures Inv(r.st) && |r.cmds| <= |cs|
  {
    RunKeepsInv(st, cs);
    Run(Step, st, cs)
  }

  /** Feeding two runs of characters is feeding their concatenation. */
  lemma FeedAppend(st: St, a: seq<u8>, b: seq<u8>)
    requires Inv(st)
    ensures var fa := Feed(st, a);
            var fb := Feed(fa.st, b);
            Feed(st, a + b) == Fed(fb.st, fa.cmds + fb.cmds)
  {
    RunAppend(Step, st, a, b);
  }

  lemma RunOne(step: (St, u8) -> Stepped, st: St, x: u8)
    ensures Run(step, st, [x]) == Fed(step(st, x).st, CmdList(step(st, x).cmd))
  {
    assert [x][0] == x && [x][1..] == [];
    assert Run(step, st, [x]) == Fed(Run(step, step(st, x).st, []).st, CmdList(step(st, x).cmd) + []);
  }

  lemma RunTwo(step: (St, u8) -> Stepped, st: St, x: u8, y: u8)
    ensures var s1 := step(st, x);
            var s2 := step(s1.st, y);
            Run(step, st, [x, y]) == Fed(s2.st, CmdList(s1.cmd) + CmdList(s2.cmd))
  {
    assert [x, y] == [x] + [y];
    RunAppend(step, st, [x], [y]);
    RunOne(step, st, x);
    RunOne(step, step(st, x).st, y);
  }

  lemma FeedOne(st: St, x: u8)
    requires Inv(st)
    ensures Feed(st, [x]) == Fed(AddChar(st, x).st, CmdList(AddChar(st, x).cmd))
  {
    RunOne(Step, st, x);
  }

  lemma FeedTwo(st: St, x: u8, y: u8)
    requires Inv(st)
    ensures var s1 := AddChar(st, x);
            var s2 := AddChar(s1.st, y);
            Feed(st, [x, y]) == Fed(s2.st, CmdList(s1.cmd) + CmdList(s2.cmd))
  {
    RunTwo(Step, st, x, y);
  }

  /** The opening '$' of a binary command: the state it leads to. */
  function Opened(st: St): (r: St)
    requires Inv(st) && AtStart(st)
    ensures Inv(r) && r.binMode && !r.lenDone && r.digits == 4 && r.data == 0 && r.bin == []
  {
    st.(binMode := true, lenBytes := [0, 0], lenIdx := 0, lenDone := false, digits := 4, data := 0,
        lines := C.SetCur(st.lines.(sel := 0), C.Empty), bin := [])
  }

  lemma StartStep(st: St)
    requires Inv(st) && AtStart(st)
    ensures Feed(st, [BIN_START]) == Fed(Opened(st), [])
  {
    FeedOne(st, BIN_START);
  }

  /** In binary mode with the length read, a character is a data digit. */
  lemma StepInData(st: St, c: u8)
    requires Inv(st) && st.binMode && st.lenDone
    ensures Step(st, c) == DataDigit(st, c)
  {
  }

  /** In binary mode before the length is read, a character is a length
      digit. */
  lemma StepInLength(st: St, c: u8)
    requires Inv(st) && st.binMode && !st.lenDone
    ensures Step(st, c) == LenDigit(st, c)
  {
  }

  /** One length digit: the nibble it adds and, on every second digit, the
      byte it stores. */
  lemma LenDigitStep(st: St, c: u8)
    requires Inv(st) && st.binMode && !st.lenDone
    ensures var d := (st.data * 16 + AsciiToDec(c)) % 256;
            var k := st.digits - 1;
            LenDigit(st, c) ==
              if k % 2 == 1 then Stepped(st.(digits := k, data := d), None)
              else if k == 0 then
                Stepped(st.(lenBytes := st.lenBytes[1 := d], lenIdx := 2, bin := st.bin + [d], lenDone := true,
                            digits := I16Of((2 * Field(st.lenBytes[1 := d], 0, 2)) % 0x1_0000), data := 0), None)
              else Stepped(st.(lenBytes := st.lenBytes[0 := d], lenIdx := 1, bin := st.bin + [d], digits := 2, data := 0), None)
  {
  }

  /** One data digit, with the count still positive before it. */
  lemma DataDigitStep(st: St, c: u8)
    requires Inv(st) && st.binMode && st.lenDone && 1 <= st.digits
    ensures var d := (st.data * 16 + AsciiToDec(c)) % 256;
            var k := st.digits - 1;
            DataDigit(st, c) ==
              if k % 2 == 1 then Stepped(st.(digits := k, data := d), None)
              else if k == 0 then
                Stepped(Finish(st.(digits := 0, data := 0, bin := st.bin + [d])), Some(Binary(st.bin + [d])))
              else Stepped(st.(digits := k, data := 0, bin := st.bin + [d]), None)
  {
    assert (st.digits - 1) % 0x1_0000 == st.digits - 1;
  }

  /** The high digit of a command byte only records its nibble. */
  lemma DataHighDigit(st: St, c: u8)
    requires Inv(st) && st.binMode && st.lenDone && st.data == 0 && st.digits >= 2 && st.digits % 2 == 0
    ensures Step(st, c) == Stepped(st.(digits := st.digits - 1, data := AsciiToDec(c) as u8), None)
  {
    StepInData(st, c);
    Parity(st.digits);
    DataDigitStep(st, c);
  }

  /** The low digit of a command byte stores the byte b its nibble
      completes; the last one completes the command. */
  lemma DataLowDigit(st: St, c: u8, b: u8)
    requires Inv(st) && st.binMode && st.lenDone && st.digits >= 1 && st.digits % 2 == 1
    requires (st.data * 16 + AsciiToDec(c)) % 256 == b
    ensures var st2 := st.(digits := st.digits - 1, data := 0, bin := st.bin + [b]);
            Step(st, c) == if st.digits == 1 then Stepped(Finish(st2), Some(Binary(st.bin + [b]))) else Stepped(st2, None)
  {
    StepInData(st, c);
    assert (st.digits - 1) % 2 == 0;
    DataDigitStep(st, c);
  }

  /** The high digit of a length byte only records its nibble. */
  lemma LenHighDigit(st: St, c: u8)
    requires Inv(st) && st.binMode && !st.lenDone && st.data == 0 && (st.digits == 4 || st.digits == 2)
    ensures Step(st, c) == Stepped(st.(digits := st.digits - 1, data := AsciiToDec(c) as u8), None)
  {
    StepInLength(st, c);
    LenDigitStep(st, c);
  }

  /** The low digit of a length byte stores it; the second one ends the
      length. */
  lemma LenLowDigit(st: St, c: u8)
    requires Inv(st) && st.binMode && !st.lenDone && (st.digits == 3 || st.digits == 1)
    ensures var d := (st.data * 16 + AsciiToDec(c)) % 256;
            Step(st, c) ==
              if st.digits == 1 then
                Stepped(st.(lenBytes := st.lenBytes[1 := d], lenIdx := 2, bin := st.bin + [d], lenDone := true,
                            digits := I16Of((2 * Field(st.lenBytes[1 := d], 0, 2)) % 0x1_0000), data := 0), None)
              else Stepped(st.(lenBytes := st.lenBytes[0 := d], lenIdx := 1, bin := st.bin + [d], digits := 2, data := 0), None)
  {
    StepInLength(st, c);
    LenDigitStep(st, c);
  }

  /** A step function whose pairs of digits, in the binary phases, store
      bytes as AddChar's do. */
  ghost predicate DataBytes(step: (St, u8) -> Stepped) {
    forall st: St, b: u8 {:trigger Run(step, st, HexDigits(b))} ::
      Inv(st) && st.binMode && st.lenDone && st.data == 0 && st.digits >= 2 && st.digits % 2 == 0 ==>
        Run(step, st, HexDigits(b)) ==
          if st.digits == 2 then Fed(Finish(st.(digits := 0, data := 0, bin := st.bin + [b])), [Binary(st.bin + [b])])
          else Fed(st.(digits := st.digits - 2, data := 0, bin := st.bin + [b]), [])
  }

  ghost predicate LenBytes(step: (St, u8) -> Stepped) {
    (forall st: St, b: u8 {:trigger Run(step, st, HexDigits(b))} ::
      Inv(st) && st.binMode && !st.lenDone && st.data == 0 && st.digits == 4 ==>
        Run(step, st, HexDigits(b)) ==
          Fed(st.(lenBytes := st.lenBytes[0 := b], lenIdx := 1, bin := st.bin + [b], digits := 2, data := 0), [])) &&
    (forall st: St, b: u8 {:trigger Run(step, st, HexDigits(b))} ::
      Inv(st) && st.binMode && !st.lenDone && st.data == 0 && st.digits == 2 ==>
        Run(step, st, HexDigits(b)) ==
          Fed(st.(lenBytes := st.lenBytes[1 := b], lenIdx := 2, bin := st.bin + [b], lenDone := true,
                  digits := I16Of((2 * Field(st.lenBytes[1 := b], 0, 2)) % 0x1_0000), data := 0), []))
  }

  /** The two digits of one command byte store that byte. */
  lemma DataByte(st: St, b: u8)
    requires Inv(st) && st.binMode && st.lenDone && st.data == 0 && st.digits >= 2 && st.digits % 2 == 0
    ensures var st2 := st.(digits := st.digits - 2, data := 0, bin := st.bin + [b]);
            Run(Step, st, HexDigits(b)) ==
              if st.digits == 2 then Fed(Finish(st2), [Binary(st.bin + [b])]) else Fed(st2, [])
  {
    var a := HexDigits(b);
    var s1 := st.(digits := st.digits - 1, data := b / 16);
    DataHighDigit(st, a[0]);
    Parity(st.digits);
    Nibbles(b);
    DataLowDigit(s1, a[1], b);
    var st2 := st.(digits := st.digits - 2, data := 0, bin := st.bin + [b]);
    assert s1.(digits := s1.digits - 1, data := 0, bin := s1.bin + [b]) == st2;
    TwoSteps(Step, st, a, Stepped(s1, None),
             if st.digits == 2 then Stepped(Finish(st2), Some(Binary(st.bin + [b]))) else Stepped(st2, None));
  }

  /** Two characters whose steps are known. */
  lemma TwoSteps(step: (St, u8) -> Stepped, st: St, a: seq<u8>, s1: Stepped, s2: Stepped)
    requires |a| == 2 && step(st, a[0]) == s1 && step(s1.st, a[1]) == s2
    ensures Run(step, st, a) == Fed(s2.st, CmdList(s1.cmd) + CmdList(s2.cmd))
  {
    assert a == [a[0], a[1]];
    RunTwo(step, st, a[0], a[1]);
  }

  /** The two digits of a length byte store it, low byte first. */
  lemma LenByte(st: St, b: u8)
    requires Inv(st) && st.binMode && !st.lenDone && st.data == 0 && (st.digits == 4 || st.digits == 2)
    ensures st.digits == 4 ==>
              Run(Step, st, HexDigits(b)) ==
                Fed(st.(lenBytes := st.lenBytes[0 := b], lenIdx := 1, bin := st.bin + [b], digits := 2, data := 0), [])
    ensures st.digits == 2 ==>
              Run(Step, st, HexDigits(b)) ==
                Fed(st.(lenBytes := st.lenBytes[1 := b], lenIdx := 2, bin := st.bin + [b], lenDone := true,
                        digits := I16Of((2 * Field(st.lenBytes[1 := b], 0, 2)) % 0x1_0000), data := 0), [])
  {
    var a := HexDigits(b);
    var s1 := st.(digits := st.digits - 1, data := b / 16);
    LenHighDigit(st, a[0]);
    LenLowDigit(s1, a[1]);
    Nibbles(b);
    assert (s1.data * 16 + AsciiToDec(a[1])) % 256 == b;
    var s2 := if st.digits == 2 then
                st.(lenBytes := st.lenBytes[1 := b], lenIdx := 2, bin := st.bin + [b], lenDone := true,
                    digits := I16Of((2 * Field(st.lenBytes[1 := b], 0, 2)) % 0x1_0000), data := 0)
              else st.(lenBytes := st.lenBytes[0 := b], lenIdx := 1, bin := st.bin + [b], digits := 2, data := 0);
    TwoSteps(Step, st, a, Stepped(s1, None), Stepped(s2, None));
  }

  lemma StepBytes()
    ensures DataBytes(Step) && LenBytes(Step)
  {
    forall st: St, b: u8 | Inv(st) && st.binMode && st.lenDone && st.data == 0 && st.digits >= 2 && st.digits % 2 == 0
      ensures Run(Step, st, HexDigits(b)) ==
                if st.digits == 2 then Fed(Finish(st.(digits := 0, data := 0, bin := st.bin + [b])), [Binary(st.bin + [b])])
                else Fed(st.(digits := st.digits - 2, data := 0, bin := st.bin + [b]), [])
    {
      DataByte(st, b);
    }
    forall st: St, b: u8 | Inv(st) && st.binMode && !st.lenDone && st.data == 0 && (st.digits == 4 || st.digits == 2)
      ensures st.digits == 4 ==>
                Run(Step, st, HexDigits(b)) ==
                  Fed(st.(lenBytes := st.lenBytes[0 := b], lenIdx := 1, bin := st.bin + [b], digits := 2, data := 0), [])
      ensures st.digits == 2 ==>
                Run(Step, st, HexDigits(b)) ==
                  Fed(st.(lenBytes := st.lenBytes[1 := b], lenIdx := 2, bin := st.bin + [b], lenDone := true,
                          digits := I16Of((2 * Field(st.lenBytes[1 := b], 0, 2)) % 0x1_0000), data := 0), [])
    {
      LenByte(st, b);
    }
  }

  /** The state after the four length digits. */
  function LengthRead(st: St, len: u16): (r: St)
    requires Inv(st) && st.binMode && !st.lenDone
    ensures Inv(r) && r.binMode && r.lenDone && r.data == 0 && r.bin == U16(len)
    ensures r.digits == 2 * len - (if len < 0x4000 then 0 else if len < 0xC000 then 0x1_0000 else 0x2_0000)
  {
    st.(lenBytes := U16(len), lenIdx := 2, lenDone := true, digits := I16Of((2 * len) % 0x1_0000), data := 0, bin := U16(len))
  }

  /** The four length digits of a binary command store its little-endian
      length bytes and leave twice the length, as an int16, to read. */
  lemma LengthPhaseBy(step: (St, u8) -> Stepped, st: St, len: u16)
    requires LenBytes(step)
    requires Inv(st) && st.binMode && !st.lenDone && st.digits == 4 && st.data == 0 && st.bin == []
    ensures Run(step, st, HexText(U16(len))) == Fed(LengthRead(st, len), [])
  {
    var lb := U16(len);
    assert HexText(lb) == HexDigits(lb[0]) + HexDigits(lb[1]) by {
      assert lb[1..][1..] == [];
    }
    RunAppend(step, st, HexDigits(lb[0]), HexDigits(lb[1]));
    var st2 := st.(lenBytes := st.lenBytes[0 := lb[0]], lenIdx := 1, bin := st.bin + [lb[0]], digits := 2, data := 0);
    assert Run(step, st, HexDigits(lb[0])) == Fed(st2, []);
    LengthBytesRead(st, len);
    assert Run(step, st2, HexDigits(lb[1])) == Fed(LengthRead(st, len), []);
  }

  /** Storing the two little-endian bytes of len one after the other
      reaches the state LengthRead describes. */
  lemma LengthBytesRead(st: St, len: u16)
    requires Inv(st) && st.binMode && !st.lenDone && st.bin == []
    ensures var lb := U16(len);
            var st2 := st.(lenBytes := st.lenBytes[0 := lb[0]], lenIdx := 1, bin := st.bin + [lb[0]], digits := 2, data := 0);
            st2.(lenBytes := st2.lenBytes[1 := lb[1]], lenIdx := 2, bin := st2.bin + [lb[1]], lenDone := true,
                 digits := I16Of((2 * Field(st2.lenBytes[1 := lb[1]], 0, 2)) % 0x1_0000), data := 0) == LengthRead(st, len)
  {
    var lb := U16(len);
    var st2 := st.(lenBytes := st.lenBytes[0 := lb[0]], lenIdx := 1, bin := st.bin + [lb[0]], digits := 2, data := 0);
    assert st2.lenBytes[1 := lb[1]] == lb;
    assert st2.bin + [lb[1]] == lb;
    assert Field(lb, 0, 2) == len by {
      assert lb[0..2] == lb;
    }
  }

  /** The hex digits of the bytes after the length store exactly those
      bytes, and the last one completes the command. */
  lemma {:induction false} DataPhaseBy(step: (St, u8) -> Stepped, st: St, bs: seq<u8>)
    requires DataBytes(step)
    requires Inv(st) && st.binMode && st.lenDone && st.data == 0
    requires |bs| >= 1 && st.digits == 2 * |bs|
    ensures Run(step, st, HexText(bs)) == Fed(Finish(st.(digits := 0, data := 0)), [Binary(st.bin + bs)])
    decreases |bs|
  {
    if |bs| == 1 {
      LastDataByte(step, st, bs[0]);
      assert bs == [bs[0]];
    } else {
      var st2 := st.(digits := 2 * |bs| - 2, data := 0, bin := st.bin + [bs[0]]);
      DataByteThenRest(step, st, bs);
      DataPhaseBy(step, st2, bs[1..]);
      assert st2.bin + bs[1..] == st.bin + bs;
      assert Finish(st2.(digits := 0, data := 0)) == Finish(st.(digits := 0, data := 0));
    }
  }

  lemma LastDataByte(step: (St, u8) -> Stepped, st: St, b: u8)
    requires DataBytes(step)
    requires Inv(st) && st.binMode && st.lenDone && st.data == 0 && st.digits == 2
    ensures Run(step, st, HexText([b])) == Fed(Finish(st.(digits := 0, data := 0)), [Binary(st.bin + [b])])
  {
    var hb := HexDigits(b);
    assert HexText([b]) == hb + [] by {
      assert [b][1..] == [];
    }
    RunAppend(step, st, hb, []);
    var fin := Finish(st.(digits := 0, data := 0, bin := st.bin + [b]));
    assert Run(step, st, hb) == Fed(fin, [Binary(st.bin + [b])]);
    assert fin == Finish(st.(digits := 0, data := 0));
  }

  lemma Twice(n: nat)
    ensures (2 * n) % 2 == 0
  {
  }

  /** The two hex digits of a byte rebuild it. */
  lemma Nibbles(b: u8)
    ensures (0 * 16 + b / 16) % 256 == b / 16
    ensures (b / 16 * 16 + b % 16) % 256 == b
  {
  }

  lemma Parity(d: int)
    requires d % 2 == 0
    ensures (d - 1) % 2 == 1 && (d - 2) % 2 == 0
  {
  }

  /** The int16 decrement of the digit count: it wraps only at -0x8000. */
  lemma Decrement(d: i16)
    ensures I16Of((d - 1) % 0x1_0000) == if d == -0x8000 then 0x7FFF else d - 1
  {
  }

  /** The first byte's two digits, then the rest of the digits. */
  lemma DataByteThenRest(step: (St, u8) -> Stepped, st: St, bs: seq<u8>)
    requires DataBytes(step)
    requires Inv(st) && st.binMode && st.lenDone && st.data == 0
    requires |bs| >= 2 && st.digits == 2 * |bs|
    ensures var st2 := st.(digits := 2 * |bs| - 2, data := 0, bin := st.bin + [bs[0]]);
            Run(step, st, HexText(bs)) == Run(step, st2, HexText(bs[1..]))
  {
    var hb := HexDigits(bs[0]);
    var hr := HexText(bs[1..]);
    assert HexText(bs) == hb + hr;
    RunAppend(step, st, hb, hr);
    Twice(|bs|);
    var st2 := st.(digits := st.digits - 2, data := 0, bin := st.bin + [bs[0]]);
    assert Run(step, st, hb) == Fed(st2, []);
    assert Run(step, st2, hr).cmds == [] + Run(step, st2, hr).cmds;
  }

  /** The digits of a well-formed binary command, after its '$'. */
  lemma CommandDigitsBy(step: (St, u8) -> Stepped, st: St, bytes: seq<u8>)
    requires LenBytes(step) && DataBytes(step)
    requires Inv(st) && st.binMode && !st.lenDone && st.digits == 4 && st.data == 0 && st.bin == []
    requires 4 <= |bytes| && Field(bytes, 0, 2) + 2 == |bytes| && 2 * |bytes| < 0x8000
    ensures Run(step, st, HexText(bytes)) == Fed(Finish(LengthRead(st, Field(bytes, 0, 2)).(digits := 0)), [Binary(bytes)])
  {
    var len: u16 := Field(bytes, 0, 2);
    var rest := bytes[2..];
    assert U16(len) == bytes[..2] by {
      LEOfFromLE(bytes[0..2]);
      assert bytes[0..2] == bytes[..2];
    }
    assert bytes == U16(len) + rest;
    HexTextAppend(U16(len), rest);
    RunAppend(step, st, HexText(U16(len)), HexText(rest));
    LengthPhaseBy(step, st, len);
    var s2 := LengthRead(st, len);
    DataPhaseBy(step, s2, rest);
  }

  /** A well-formed binary command, whose 16-bit len counts the bytes after
      it, typed as "$" and its hex digits reaches the binary handler as
      exactly those bytes, and the console is ready for the next line. */
  lemma BinaryCommandText(st: St, bytes: seq<u8>)
    requires Inv(st) && AtStart(st)
    requires 4 <= |bytes| && Field(bytes, 0, 2) + 2 == |bytes| && 2 * |bytes| < 0x8000
    ensures var r := Feed(st, [BIN_START] + HexText(bytes));
            r.cmds == [Binary(bytes)] && AtStart(r.st) && C.Cur(r.st.lines) == C.Empty
  {
    FeedAppend(st, [BIN_START], HexText(bytes));
    StartStep(st);
    StepBytes();
    CommandDigitsBy(Step, Opened(st), bytes);
  }

  /** The "\n\r" that ends every host request: the line feed completes an
      empty text command and the carriage return is dropped. */
  lemma TrailerIsEmptyTextCommand(st: St)
    requires Inv(st) && AtStart(st) && C.Cur(st.lines) == C.Empty
    ensures var r := Feed(st, [LF, CR]);
            r.cmds == [Text(C.Empty)] && AtStart(r.st)
  {
    FeedTwo(st, LF, CR);
    C.TextCharEffects(st.lines, LF, BUFFER_SIZE);
    var l1 := C.Next(C.TextChar(st.lines, LF, BUFFER_SIZE).lines);
    C.TextCharEffects(l1, CR, BUFFER_SIZE);
  }

  /** The characters of a hex line as the host writes it. */
  lemma HexLineChars(bytes: seq<u8>)
    ensures AsciiOf("$" + HexString(bytes) + "\n\r") == [BIN_START] + HexText(bytes) + [LF, CR]
  {
    var h := HexString(bytes);
    AsciiOfAppend("$" + h, "\n\r");
    AsciiOfAppend("$", h);
    HexTextIsAscii(bytes);
    assert AsciiOf("$") == [BIN_START];
    assert AsciiOf("\n\r") == [LF, CR];
  }

  /** The characters of a request's text line. */
  lemma ReqTextChars(req: P.Req)
    requires P.Packable(req.hdr)
    ensures AsciiOf(P.ReqText(req)) == [BIN_START] + HexText(P.ReqBinary(req).value) + [LF, CR]
  {
    HexLineChars(P.ReqBinary(req).value);
  }

  /** A request as the host writes it to the serial console, "$", the hex
      of its binary form and "\n\r", reaches the binary handler as exactly
      that binary form; the trailer adds an empty text command and leaves
      the console ready for the next command. The length must leave room
      in the two buffers for the bytes and the NUL written behind them. */
  lemma HostRequestReachesBinaryHandler(st: St, req: P.Req)
    requires Inv(st) && AtStart(st)
    requires P.Packable(req.hdr) && req.hdr.len == 2 + |req.data| && req.hdr.len + 2 < BIN_LEN_MAX
    ensures var r := Feed(st, AsciiOf(P.ReqText(req)));
            r.cmds == [Binary(P.ReqBinary(req).value), Text(C.Empty)] && AtStart(r.st)
  {
    var bytes := P.ReqBinary(req).value;
    assert Field(bytes, 0, 2) == req.hdr.len by {
      assert bytes[0..2] == P.HdrBinary(req.hdr).value[0..2];
      assert P.HdrBinary(req.hdr).value[0..2] == U16(req.hdr.len);
    }
    ReqTextChars(req);
    var body := [BIN_START] + HexText(bytes);
    FeedAppend(st, body, [LF, CR]);
    BinaryCommandText(st, bytes);
    var f1 := Feed(st, body);
    TrailerIsEmptyTextCommand(f1.st);
    var f2 := Feed(f1.st, [LF, CR]);
    assert Feed(st, AsciiOf(P.ReqText(req))) == Fed(f2.st, f1.cmds + f2.cmds);
    assert f1.cmds + f2.cmds == [Binary(bytes), Text(C.Empty)];
  }

  /** The opening '$' and the four length digits of a binary command. */
  lemma LengthTyped(st: St, len: u16)
    requires Inv(st) && AtStart(st)
    ensures Feed(st, [BIN_START] + HexText(U16(len))) == Fed(LengthRead(Opened(st), len), [])
  {
    FeedAppend(st, [BIN_START], HexText(U16(len)));
    StartStep(st);
    StepBytes();
    LengthPhaseBy(Step, Opened(st), len);
  }

  /** A character after the length, with the digit count at most 0 before
      it: the count drops by one in int16, and the command completes exactly
      when the result is not positive. */
  lemma DigitAfterLength(st: St, c: u8)
    requires Inv(st) && st.binMode && st.lenDone && st.digits <= 0 && st.data == 0
    ensures var k := I16Of((st.digits - 1) % 0x1_0000);
            Feed(st, [c]).st.digits == k &&
            Feed(st, [c]).cmds == (if k <= 0 then [Binary(if k % 2 == 0 then st.bin + [AsciiToDec(c) as u8] else st.bin)] else [])
  {
    FeedOne(st, c);
    assert AddChar(st, c) == DataDigit(st, c);
  }

  /** A binary command of length 0 is complete only on the character after
      its four length digits, which it swallows: "$0000" followed by any
      character hands the handler just the two length bytes. */
  lemma EmptyCommandSwallowsNextChar(st: St, c: u8)
    requires Inv(st) && AtStart(st)
    ensures Feed(st, [BIN_START] + HexText(U16(0)) + [c]).cmds == [Binary([0, 0])]
  {
    var hl := HexText(U16(0));
    LengthTyped(st, 0);
    var s2 := LengthRead(Opened(st), 0);
    FeedAppend(st, [BIN_START] + hl, [c]);
    EmptyLengthRead(Opened(st));
    LastAfterEmpty(s2, c);
  }

  /** With no digits left, the next character completes the command with
      the bytes read so far. */
  lemma LastAfterEmpty(st: St, c: u8)
    requires Inv(st) && st.binMode && st.lenDone && st.digits == 0 && st.data == 0
    ensures Feed(st, [c]).cmds == [Binary(st.bin)]
  {
    Decrement(0);
    DigitAfterLength(st, c);
  }

  /** Length 0 leaves no digits to read and just the two length bytes. */
  lemma EmptyLengthRead(st: St)
    requires Inv(st) && st.binMode && !st.lenDone
    ensures LengthRead(st, 0).digits == 0 && LengthRead(st, 0).bin == [0, 0]
  {
    assert U16(0) == [0, 0];
  }

  /** From length 0x4000 on, twice the length no longer fits the int16
      digit count: 0x4000 leaves -0x8000, and the next digit wraps the
      count to 0x7FFF instead of completing the command. */
  lemma LengthOver0x3FFFWraps(st: St, c: u8)
    requires Inv(st) && AtStart(st)
    ensures var s2 := Feed(st, [BIN_START] + HexText(U16(0x4000))).st;
            s2.digits == -0x8000 && Feed(s2, [c]).cmds == [] && Feed(s2, [c]).st.digits == 0x7FFF
  {
    LengthTyped(st, 0x4000);
    var s2 := LengthRead(Opened(st), 0x4000);
    assert s2.digits == -0x8000;
    DigitAfterLength(s2, c);
    Decrement(s2.digits);
  }

  /** The argv processText builds for a completed line, as written: its
      len parameter is a uint8_t, so the line length is taken mod 256. */
  function TextArgvAsWritten(line: C.Buffer): (r: seq<seq<u8>>)
    ensures |r| == |C.Tokens(line.content[..|line.content| % 256])|
  {
    C.ProcessTextWords(line, |line.content| % 256)
  }

  /** The argv the console evidently intends: the words of the whole line
      as it stands. */
  function TextArgv(line: C.Buffer): (r: seq<seq<u8>>)
    ensures forall k :: 0 <= k < |r| ==> C.IsWord(r[k])
    ensures 2 * |r| <= |line.content| + 1
  {
    C.LineWords(line)
  }

  /** Lines of up to 255 characters are unaffected by the truncation, and
      then, without a trailing backspace, get their words. */
  lemma ShortLineArgv(line: C.Buffer)
    requires |line.content| < 256 && C.NUL !in line.content && line.tail == []
    ensures TextArgvAsWritten(line) == TextArgv(line)
  {
    assert |line.content| % 256 == |line.content|;
    C.ProcessTextWordsWithoutTail(line);
  }

  /** A 256-character word (the console accepts lines of up to 511) reaches
      processText with len 0 and is not seen at all. */
  lemma LongLineVanishes()
    ensures var line := C.Buffer(seq(256, i => 0x61), []);
            TextArgvAsWritten(line) == [] && TextArgv(line) == [line.content]
  {
    var w: seq<u8> := seq(256, i => 0x61);
    assert C.IsWord(w);
    C.TokensOfJoin([w]);
    assert C.Join([w]) == w;
  }

  /** svc_CmdEh_handlerText: the walk of tst.c, except that the help of the
      level the walk stopped at is printed whenever no leaf ran, so a '?'
      prints it twice. */
  function HandlerText(menu: seq<Tst.Entry>, words: seq<string>, leafRet: int): (r: Tst.TextOutcome)
    ensures r.called == Tst.HandlerText(menu, words, leafRet).called
    ensures r.ret == Tst.HandlerText(menu, words, leafRet).ret
    ensures r.called.Some? ==> r.helpDumps == []
    ensures r.called.None? ==>
              r.helpDumps == Tst.HandlerText(menu, words, leafRet).helpDumps + [Tst.Walk(menu, words).level]
  {
    match Tst.Walk(menu, words)
    case LeafCalled(h, _) => Tst.TextOutcome(leafRet, [], Some(h))
    case HelpRequested(level) => Tst.TextOutcome(Tst.STATUS_ERROR, [level, level], None)
    case NoLeaf(level) => Tst.TextOutcome(Tst.STATUS_ERROR, [level], None)
  }

  /** A line made of a single '?' prints the top menu twice. */
  lemma HelpPrintedTwice(menu: seq<Tst.Entry>, leafRet: int)
    ensures HandlerText(menu, ["?"], leafRet).helpDumps == [menu, menu]
  {
  }

  /** The empty text command that follows every host request prints the
      top menu and reports an error. */
  lemma EmptyLinePrintsTopMenu(menu: seq<Tst.Entry>, leafRet: int)
    ensures HandlerText(menu, C.Strs(TextArgv(C.Empty)), leafRet) == Tst.TextOutcome(Tst.STATUS_ERROR, [menu], None)
  {
    assert C.Strs(TextArgv(C.Empty)) == [];
  }

  /** svc_CmdEh_binarySendSerial: '!', two uppercase hex digits per byte,
      a newline; the byte counter grows by 2 * len + 1 in 32 bits. */
  datatype Serial = Serial(out: string, txCnt: u32)

  function BinarySendSerial(txCnt: u32, buf: seq<u8>): (r: Serial)
    requires |buf| < 0x1_0000
    ensures |r.out| == 2 * |buf| + 2 && r.out[0] == '!' && r.out[|r.out| - 1] == '\n'
    ensures r.txCnt == (txCnt + 2 * |buf| + 1) % 0x1_0000_0000
  {
    Serial("!" + HexString(buf) + "\n", (txCnt + 2 * |buf| + 1) % 0x1_0000_0000)
  }

  /** The host's confirm parser reads a serial reply, without its newline,
      back as the header and data that were sent. */
  lemma SerialReplyParsesOnHost(txCnt: u32, reply: seq<u8>)
    requires 4 <= |reply| < 0x1_0000
    ensures var out := BinarySendSerial(txCnt, reply).out;
            P.CnfFromText(out[..|out| - 1]) == Success(P.Cnf(true, P.HdrFromBin(reply).value, reply[4..]))
  {
    var out := BinarySendSerial(txCnt, reply).out;
    var line := out[..|out| - 1];
    assert line == "!" + HexString(reply);
    assert reply == reply[..4] + reply[4..];
    HexStringAppend(reply[..4], reply[4..]);
    assert line[1..] == HexString(reply);
    assert line[9..] == HexString(reply[4..]);
    P.DecodeHexOfHex(reply);
    P.DecodeHexOfHex(reply[4..]);
    P.HdrFromBinPrefix(reply);
    assert P.HdrFromText(line[1..]) == P.HdrFromBin(reply);
  }

  /** The counter is one short of the characters written per reply. */
  lemma TxCountOmitsNewline(txCnt: u32, buf: seq<u8>)
    requires |buf| < 0x1_0000 && txCnt + 2 * |buf| + 2 < 0x1_0000_0000
    ensures BinarySendSerial(txCnt, buf).txCnt == txCnt + |BinarySendSerial(txCnt, buf).out| - 1
  {
  }

  /** The bulk reader (the BULK_DATA_IND branch of svc_CmdEh_msgHandler):
      a 16-bit len, then len more bytes, the total asserted to fit the
      buffers. `Short` means fewer bytes than that have arrived. */
  datatype BulkRead = Frame(buf: seq<u8>, rest: seq<u8>) | TooLong | Short

  function BulkFrame(rx: seq<u8>): (r: BulkRead)
    ensures r.Frame? ==> r.buf + r.rest == rx && |r.buf| >= 2
    ensures r.Frame? && Field(rx, 0, 2) + 2 < 0x1_0000 ==> |r.buf| == Field(rx, 0, 2) + 2
    ensures r == TooLong <==> |rx| >= 2 && (Field(rx, 0, 2) + 2) % 0x1_0000 > BIN_LEN_MAX
  {
    if |rx| < 2 then Short
    else
      var len := (Field(rx, 0, 2) + 2) % 0x1_0000;
      if len > BIN_LEN_MAX then TooLong
      else
        var n := if len < 2 then 2 else len;
        if |rx| < n then Short else Frame(rx[..n], rx[n..])
  }

  /** A host request written to the bulk endpoint is read back as one
      frame, whatever follows it. */
  lemma BulkFrameOfHostRequest(req: P.Req, more: seq<u8>)
    requires P.Packable(req.hdr) && req.hdr.len == 2 + |req.data| && req.hdr.len + 2 <= BIN_LEN_MAX
    ensures BulkFrame(P.ReqBinary(req).value + more) == Frame(P.ReqBinary(req).value, more)
  {
    var b := P.ReqBinary(req).value;
    assert P.HdrBinary(req.hdr).value == U16(req.hdr.len) + U16(req.hdr.id);
    assert (b + more)[0..2] == U16(req.hdr.len);
    FromLEOfLE(req.hdr.len, 2);
    Pow256Values();
    assert (b + more)[..|b|] == b && (b + more)[|b|..] == more;
  }

  /** A len of 0xFFFE wraps the 16-bit total to 0: the assertion passes,
      only the two length bytes are taken, and the rest of the stream is
      read as the next frame. */
  lemma BulkLengthWraps(rx: seq<u8>)
    requires |rx| >= 2 && rx[0] == 0xFE && rx[1] == 0xFF
    ensures BulkFrame(rx) == Frame(rx[..2], rx[2..])
  {
    assert rx[0..2] == [0xFE, 0xFF];
    assert Field(rx, 0, 2) == 0xFFFE by {
      assert FromLE([0xFE, 0xFF]) == 0xFE + 256 * FromLE([0xFF]);
    }
  }

  /** The default branch of svc_CmdEh_msgHandler: a message for BROADCAST
      or for an eh beyond this firmware's is sent to the host over bulk as
      an EHMSG command whose len is the message length plus 2, in 16 bits. */
  function Forward(m: M.Msg, numEh: nat): (r: Option<seq<u8>>)
    requires m.hdr.len == M.HDR_SIZE + |m.payload|
    ensures r.Some? <==> m.hdr.eh == M.EH_BROADCAST || m.hdr.eh >= numEh
    ensures r.Some? ==> |r.value| == m.hdr.len + Cmds.CMD_HDR_SIZE && r.value[Cmds.CMD_HDR_SIZE..] == M.MsgBytes(m)
    ensures r.Some? ==> Field(r.value, 0, 2) == (m.hdr.len + 2) % 0x1_0000 && Field(r.value, 2, 2) == Cmds.EHMSG
  {
    if m.hdr.eh == M.EH_BROADCAST || m.hdr.eh >= numEh then
      var r := U16((m.hdr.len + 2) % 0x1_0000) + U16(Cmds.EHMSG) + M.MsgBytes(m);
      assert r[0..2] == U16((m.hdr.len + 2) % 0x1_0000) && r[2..4] == U16(Cmds.EHMSG);
      Some(r)
    else None
  }

  /** The host decodes a forwarded message as an EHMSG confirm carrying the
      message bytes. */
  lemma ForwardedMessageParsesOnHost(m: M.Msg, numEh: nat)
    requires m.hdr.len == M.HDR_SIZE + |m.payload| && m.hdr.len + 2 < 0x1_0000
    requires m.hdr.eh == M.EH_BROADCAST || m.hdr.eh >= numEh
    ensures P.CnfFromBin(Forward(m, numEh).value) ==
              Success(P.Cnf(true, P.CmdHdr(m.hdr.len + 2, P.EHMSG), M.MsgBytes(m)))
  {
    assert Forward(m, numEh).value == Cmds.Confirm(Cmds.EHMSG, M.MsgBytes(m));
    Cmds.ConfirmHeader(Cmds.EHMSG, M.MsgBytes(m));
  }

  /** The data-available callbacks: the first broadcasts a DATA_IND and
      sets the skip flag, which only the DATA_IND handler clears. */
  datatype Io = Io(skip: bool, broadcast: bool)

  function IoCallback(skip: bool): (r: Io)
    ensures r.skip && (r.broadcast <==> !skip)
  {
    Io(true, !skip)
  }

  /** The indications broadcast by n callbacks in a row. */
  function Indications(skip: bool, n: nat): (count: nat)
    decreases n
    ensures count <= 1
    ensures count == 1 <==> !skip && n > 0
  {
    if n == 0 then 0
    else
      var r := IoCallback(skip);
      (if r.broadcast then 1 else 0) + Indications(r.skip, n - 1)
  }
}
