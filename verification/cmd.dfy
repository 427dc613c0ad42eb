/** The older command console (svc_Cmd.c): 64-byte lines with the same
    editing and history as the event-handler console, and binary commands
    sent raw: '$', a length byte, then that many bytes, all stored in the
    buffer and handed over whole. */
module Cmd {
  import opened Wrappers
  import opened Bytes
  import C = Console
  import Tst

  const BUFFER_SIZE: nat := 64
  const BIN_HDR_LEN: nat := 2
  const BIN_START: u8 := 0x24

  /** The statics of svc_Cmd_bufferAddChar (binary_mode, binary_len) with
      the console buffers. */
  datatype St = St(lines: C.Lines, binMode: bool, binLen: i16)

  /** Every buffer index stays below the buffer size; a binary command
      fills buffer 0, with no escape pending, and once its length byte is
      stored it is shorter than the expected total. */
  predicate Inv(st: St) {
    C.Valid(st.lines) && C.Fits(st.lines, BUFFER_SIZE) && st.binLen <= BUFFER_SIZE &&
    (st.binMode ==> st.lines.escCnt == 0) &&
    (st.binMode && C.Cur(st.lines).content != [] ==> st.lines.sel == 0) &&
    (st.binMode && |C.Cur(st.lines).content| >= 2 ==> |C.Cur(st.lines).content| < st.binLen)
  }

  /** svc_Cmd_init's bufferInit and the statics' initialisers. */
  function Init(): (st: St)
    ensures Inv(st) && AtStart(st) && !st.binMode
  {
    St(C.Init(), false, 0)
  }

  /** The next character is the first of a command: the line is empty and
      no escape sequence is pending. */
  predicate AtStart(st: St)
    requires C.Valid(st.lines)
  {
    C.Cur(st.lines).content == [] && st.lines.escCnt == 0
  }

  /** The expected length of a binary command whose length byte is n: the
      '$', the length byte and n more bytes, capped at the buffer size. */
  function Total(n: u8): (t: nat)
    ensures 2 <= t <= BUFFER_SIZE
    ensures n + BIN_HDR_LEN <= BUFFER_SIZE ==> t == n + BIN_HDR_LEN
    ensures n + BIN_HDR_LEN > BUFFER_SIZE ==> t == BUFFER_SIZE
  {
    if n + BIN_HDR_LEN > BUFFER_SIZE then BUFFER_SIZE else n + BIN_HDR_LEN
  }

  /** A completed command: the whole binary buffer, or the text line. */
  datatype Cmd = Binary(buf: seq<u8>) | Text(line: C.Buffer)
  datatype Stepped = Stepped(st: St, cmd: Option<Cmd>)

  /** svc_Cmd_bufferAddChar: the checks at buffer index 0 and 1, then the
      binary or the text branch. */
  function AddChar(st: St, c: u8): (r: Stepped)
    requires Inv(st)
    ensures Inv(r.st)
    ensures r.cmd.Some? && r.cmd.value.Text? ==> |r.cmd.value.line.content| < BUFFER_SIZE
    ensures r.cmd.Some? && r.cmd.value.Binary? ==> 2 <= |r.cmd.value.buf| <= BUFFER_SIZE
  {
    var st1 := Prepare(st, c);
    if st1.binMode then BinChar(st1, c) else TextStep(st1, c)
  }

  /** At index 0 with no escape pending, a '$' opens binary mode, dropping
      history and selecting buffer 0, and anything else closes it; at index
      1 in binary mode the character is the length byte and sets the
      expected total. */
  function Prepare(st: St, c: u8): (r: St)
    requires Inv(st)
    ensures Inv(r)
    ensures r.binMode && |C.Cur(r.lines).content| == 1 ==> 2 <= r.binLen
    ensures r.binMode && C.Cur(r.lines).content == [] ==> r.lines.sel == 0 && r.binLen == -1
    ensures AtStart(st) ==> (r.binMode <==> c == BIN_START)
    ensures AtStart(st) && c == BIN_START ==> r.lines == C.SetCur(st.lines.(sel := 0), C.Empty) && r.binLen == -1
    ensures AtStart(st) && c != BIN_START ==> r == St(st.lines, false, -1)
    ensures !AtStart(st) && !(st.binMode && |C.Cur(st.lines).content| == 1) ==> r == st
    ensures st.binMode && C.Cur(st.lines).content == [BIN_START] ==> r == st.(binLen := Total(c))
  {
    var st1 :=
      if AtStart(st) then
        St(if c == BIN_START then C.SetCur(st.lines.(sel := 0), C.Empty) else st.lines, c == BIN_START, -1)
      else st;
    if |C.Cur(st1.lines).content| == 1 && st1.binMode then st1.(binLen := Total(c)) else st1
  }

  /** A binary-mode character is stored; the command is complete once the
      buffer holds the expected total, and then the whole buffer is handed
      over, buffer 0 is reset and the next history slot is selected and
      reset. */
  function BinChar(st: St, c: u8): (r: Stepped)
    requires Inv(st) && st.binMode
    requires |C.Cur(st.lines).content| == 1 ==> 2 <= st.binLen
    requires C.Cur(st.lines).content == [] ==> st.lines.sel == 0 && st.binLen == -1
    ensures Inv(r.st) && r.st.binMode
    ensures var b := C.Cur(st.lines).content + [c];
            if st.binLen > 0 && |b| >= st.binLen then
              r.cmd == Some(Binary(b)) && AtStart(r.st) && r.st.lines.sel == 1
            else
              r.cmd.None? && C.Cur(r.st.lines).content == b && r.st.binLen == st.binLen
    ensures r.cmd.Some? ==> 2 <= |r.cmd.value.buf| <= BUFFER_SIZE
  {
    var l := C.SetCur(st.lines, C.AddChar(C.Cur(st.lines), c));
    if st.binLen > 0 && |C.Cur(l).content| >= st.binLen then
      Stepped(st.(lines := C.Next(C.SetCur(l, C.Empty))), Some(Binary(C.Cur(l).content)))
    else Stepped(st.(lines := l), None)
  }

  /** A text-mode character goes to the console's line editor; a completed
      line is handed over and the next history slot is selected and reset. */
  function TextStep(st: St, c: u8): (r: Stepped)
    requires Inv(st) && !st.binMode
    ensures Inv(r.st) && !r.st.binMode
    ensures r.cmd.Some? ==> r.cmd.value.Text? && |r.cmd.value.line.content| < BUFFER_SIZE
  {
    C.TextCharFits(st.lines, c, BUFFER_SIZE);
    var e := C.TextChar(st.lines, c, BUFFER_SIZE);
    if e.done then Stepped(st.(lines := C.Next(e.lines)), Some(Text(C.Cur(e.lines))))
    else Stepped(st.(lines := e.lines), None)
  }

  /** Text mode after the first character of a line: every character is
      the line editor's. */
  lemma InLine(st: St, c: u8)
    requires Inv(st) && !st.binMode && (C.Cur(st.lines).content != [] || st.lines.escCnt > 0)
    ensures AddChar(st, c) == TextStep(st, c)
  {
  }

  /** In text mode, what one character does to the line editor. */
  lemma TextStepEffects(st: St, c: u8)
    requires Inv(st) && !st.binMode && st.lines.escCnt == 0
    ensures var r := TextStep(st, c);
            (C.IsPrint(c) && |C.Cur(st.lines).content| + 2 < BUFFER_SIZE ==>
               r.cmd.None? && r.st.lines == C.SetCur(st.lines, C.AddChar(C.Cur(st.lines), c))) &&
            (c == C.NL ==> r.cmd == Some(Text(C.Cur(st.lines))) && r.st.lines == C.Next(st.lines))
  {
    C.TextCharEffects(st.lines, c, BUFFER_SIZE);
  }

  datatype Fed = Fed(st: St, cmds: seq<Cmd>)

  function CmdList(c: Option<Cmd>): (r: seq<Cmd>)
    ensures |r| <= 1 && (c.Some? <==> |r| == 1) && (c.Some? ==> r == [c.value])
  {
    if c.Some? then [c.value] else []
  }

  /** Characters fed in order through a step function. */
  function Run(step: (St, u8) -> Stepped, st: St, cs: seq<u8>): (r: Fed)
    ensures |r.cmds| <= |cs|
    decreases |cs|
  {
    if cs == [] then Fed(st, [])
    else
      var s := step(st, cs[0]);
      var rest := Run(step, s.st, cs[1..]);
      Fed(rest.st, CmdList(s.cmd) + rest.cmds)
  }

  /** Running two runs of characters is running their concatenation. */
  lemma {:induction false} RunAppend(step: (St, u8) -> Stepped, st: St, a: seq<u8>, b: seq<u8>)
    ensures var ra := Run(step, st, a);
            var rb := Run(step, ra.st, b);
            Run(step, st, a + b) == Fed(rb.st, ra.cmds + rb.cmds)
    decreases |a|
  {
    if a == [] {
      assert a + b == b;
    } else {
      assert (a + b)[0] == a[0] && (a + b)[1..] == a[1..] + b;
      RunAppend(step, step(st, a[0]).st, a[1..], b);
    }
  }

  /** AddChar, on any state. */
  function Step(st: St, c: u8): (r: Stepped)
    ensures Inv(st) ==> Inv(r.st)
  {
    if Inv(st) then AddChar(st, c) else Stepped(st, None)
  }

  lemma {:induction false} RunKeepsInv(st: St, cs: seq<u8>)
    requires Inv(st)
    ensures Inv(Run(Step, st, cs).st)
    decreases |cs|
  {
    if cs != [] {
      RunKeepsInv(Step(st, cs[0]).st, cs[1..]);
    }
  }

  /** The characters of one read, in order, through bufferAddChar. */
  function Feed(st: St, cs: seq<u8>): (r: Fed)
    requires Inv(st)
    ensures Inv(r.st) && |r.cmds| <= |cs|
  {
    RunKeepsInv(st, cs);
    Run(Step, st, cs)
  }

  /** Feeding two runs of characters is feeding their concatenation. */
  lemma FeedAppend(st: St, a: seq<u8>, b: seq<u8>)
    requires Inv(st)
    ensures var fa := Feed(st, a);
            var fb := Feed(fa.st, b);
            Feed(st, a + b) == Fed(fb.st, fa.cmds + fb.cmds)
  {
    RunAppend(Step, st, a, b);
  }

  lemma FeedOne(st: St, c: u8)
    requires Inv(st)
    ensures Feed(st, [c]) == Fed(AddChar(st, c).st, CmdList(AddChar(st, c).cmd))
  {
    assert [c][0] == c && [c][1..] == [];
    assert Run(Step, st, [c]) == Fed(Run(Step, Step(st, c).st, []).st, CmdList(Step(st, c).cmd) + []);
  }

  /** Feeding a non-empty run is feeding its first character, then the
      rest. */
  lemma FeedFirst(st: St, cs: seq<u8>)
    requires Inv(st) && cs != []
    ensures var s := AddChar(st, cs[0]);
            var f := Feed(s.st, cs[1..]);
            Feed(st, cs) == Fed(f.st, CmdList(s.cmd) + f.cmds)
  {
    FeedOne(st, cs[0]);
    FeedAppend(st, [cs[0]], cs[1..]);
    assert [cs[0]] + cs[1..] == cs;
  }

  /** A '$' opening a command switches to binary mode: history is dropped,
      buffer 0 is selected and the '$' is its first byte. Any other first
      character leaves binary mode. */
  lemma Opens(st: St, c: u8)
    requires Inv(st) && AtStart(st)
    ensures var r := AddChar(st, c);
            (r.st.binMode <==> c == BIN_START) &&
            (c == BIN_START ==>
               r.cmd.None? && r.st.lines.sel == 0 && C.Cur(r.st.lines).content == [BIN_START] && r.st.binLen == -1)
  {
    var p := Prepare(st, c);
    if c == BIN_START {
      assert C.Cur(p.lines).content == [];
      assert [] + [c] == [BIN_START];
    }
  }

  /** The length byte sets the expected total; a length of 0 completes the
      command at once. */
  lemma LengthByte(st: St, n: u8)
    requires Inv(st) && st.binMode && C.Cur(st.lines).content == [BIN_START]
    ensures var r := AddChar(st, n);
            (r.cmd.Some? <==> n == 0) &&
            (n == 0 ==> r.cmd == Some(Binary([BIN_START, n])) && AtStart(r.st) && r.st.lines.sel == 1) &&
            (n != 0 ==> r.st.binMode && C.Cur(r.st.lines).content == [BIN_START, n] && r.st.binLen == Total(n))
  {
    assert [BIN_START] + [n] == [BIN_START, n];
  }

  /** The bytes after the length byte are stored as they come; the command
      completes with the byte that brings the buffer to the expected total,
      and the whole buffer is handed over. */
  lemma {:induction false} BinaryBody(st: St, d: seq<u8>)
    requires Inv(st) && st.binMode && |C.Cur(st.lines).content| >= 2
    requires |C.Cur(st.lines).content| + |d| == st.binLen
    ensures Feed(st, d).cmds == [Binary(C.Cur(st.lines).content + d)]
    ensures AtStart(Feed(st, d).st) && Feed(st, d).st.lines.sel == 1
    decreases |d|
  {
    assert Prepare(st, d[0]) == st;
    var s := AddChar(st, d[0]);
    if |d| == 1 {
      FeedOne(st, d[0]);
      assert C.Cur(st.lines).content + [d[0]] == C.Cur(st.lines).content + d;
    } else {
      BinaryBody(s.st, d[1..]);
      assert C.Cur(st.lines).content + [d[0]] + d[1..] == C.Cur(st.lines).content + d;
    }
  }

  /** A whole binary command: '$', the length byte n and the min(n, 62)
      bytes that follow complete exactly one command, whose buffer holds
      all of them, '$' and length byte included; the console is then
      ready for the next command, in history slot 1. */
  lemma BinaryCommand(st: St, n: u8, d: seq<u8>)
    requires Inv(st) && AtStart(st) && |d| == Total(n) - BIN_HDR_LEN
    ensures Feed(st, [BIN_START, n] + d).cmds == [Binary([BIN_START, n] + d)]
    ensures AtStart(Feed(st, [BIN_START, n] + d).st)
    ensures Feed(st, [BIN_START, n] + d).st.lines.sel == 1
  {
    var s1 := AddChar(st, BIN_START);
    Opens(st, BIN_START);
    LengthByte(s1.st, n);
    var s2 := AddChar(s1.st, n);
    FeedOne(st, BIN_START);
    FeedOne(s1.st, n);
    FeedAppend(st, [BIN_START], [n]);
    FeedAppend(st, [BIN_START, n], d);
    if n == 0 {
      assert d == [] && [BIN_START, n] + d == [BIN_START, n];
    } else {
      BinaryBody(s2.st, d);
    }
  }

  /** A printable line typed after the first character of a text line:
      nothing completes while it fits, and the buffer then holds the line. */
  lemma {:induction false} TypeLine(st: St, s: seq<u8>)
    requires Inv(st) && !st.binMode && st.lines.escCnt == 0 && C.Cur(st.lines).content != []
    requires forall i :: 0 <= i < |s| ==> C.IsPrint(s[i])
    requires |C.Cur(st.lines).content| + |s| + 1 < BUFFER_SIZE
    ensures var f := Feed(st, s);
            f.cmds == [] && !f.st.binMode && f.st.lines.escCnt == 0 && f.st.lines.sel == st.lines.sel &&
            C.Cur(f.st.lines).content == C.Cur(st.lines).content + s &&
            C.Cur(f.st.lines).tail == (if s == [] then C.Cur(st.lines).tail else [])
    decreases |s|
  {
    if s != [] {
      var c := s[0];
      var s1 := AddChar(st, c);
      assert s1.cmd.None? && !s1.st.binMode && s1.st.lines == C.SetCur(st.lines, C.AddChar(C.Cur(st.lines), c)) by {
        InLine(st, c);
        TextStepEffects(st, c);
      }
      assert Feed(st, s) == Feed(s1.st, s[1..]) by {
        FeedFirst(st, s);
      }
      TypeLine(s1.st, s[1..]);
      assert C.Cur(st.lines).content + [c] + s[1..] == C.Cur(st.lines).content + s;
    }
  }

  /** ... and the other history slot is left as it was. */
  lemma {:induction false} TypeLineKeepsOther(st: St, s: seq<u8>, k: nat)
    requires Inv(st) && !st.binMode && st.lines.escCnt == 0 && C.Cur(st.lines).content != []
    requires forall i :: 0 <= i < |s| ==> C.IsPrint(s[i])
    requires |C.Cur(st.lines).content| + |s| + 1 < BUFFER_SIZE
    requires k < C.HISTORY && k != st.lines.sel
    ensures Feed(st, s).st.lines.bufs[k] == st.lines.bufs[k]
    decreases |s|
  {
    if s != [] {
      InLine(st, s[0]);
      TextStepEffects(st, s[0]);
      var s1 := AddChar(st, s[0]);
      TypeLine(s1.st, s[1..]);
      assert s1.st.lines.sel == st.lines.sel;
      TypeLineKeepsOther(s1.st, s[1..], k);
      FeedFirst(st, s);
    }
  }

  /** A line of printable characters not starting with '$', ended by a
      newline, is one text command holding the line; the line stays in its
      history slot and the other slot is selected, empty. */
  lemma TextCommand(st: St, line: seq<u8>)
    requires Inv(st) && C.Cur(st.lines) == C.Empty && st.lines.escCnt == 0
    requires forall i :: 0 <= i < |line| ==> C.IsPrint(line[i])
    requires |line| + 1 < BUFFER_SIZE && (line == [] || line[0] != BIN_START)
    ensures var f := Feed(st, line + [C.NL]);
            f.cmds == [Text(C.Buffer(line, []))] && AtStart(f.st) && !f.st.binMode &&
            f.st.lines.sel == (st.lines.sel + 1) % C.HISTORY &&
            f.st.lines.bufs[st.lines.sel] == C.Buffer(line, [])
  {
    if line == [] {
      assert line + [C.NL] == [C.NL];
      EmptyTextCommand(st);
    } else {
      TextCommandLine(st, line);
    }
  }

  /** A newline alone is an empty text command. */
  lemma EmptyTextCommand(st: St)
    requires Inv(st) && C.Cur(st.lines) == C.Empty && st.lines.escCnt == 0
    ensures Completed(st, [], Feed(st, [C.NL]))
  {
    var p := St(st.lines, false, -1);
    FeedOne(st, C.NL);
    TextStepEffects(p, C.NL);
  }

  /** What a text command leaves behind: the line handed over and kept in
      the slot that held it, the other slot selected and empty. */
  predicate Completed(st: St, line: seq<u8>, f: Fed)
    requires C.Valid(st.lines) && C.Valid(f.st.lines)
  {
    f.cmds == [Text(C.Buffer(line, []))] && AtStart(f.st) && !f.st.binMode &&
    f.st.lines.sel == (st.lines.sel + 1) % C.HISTORY &&
    f.st.lines.bufs[st.lines.sel] == C.Buffer(line, [])
  }

  lemma TextCommandLine(st: St, line: seq<u8>)
    requires Inv(st) && C.Cur(st.lines) == C.Empty && st.lines.escCnt == 0
    requires forall i :: 0 <= i < |line| ==> C.IsPrint(line[i])
    requires |line| + 1 < BUFFER_SIZE && line != [] && line[0] != BIN_START
    ensures Completed(st, line, Feed(st, line + [C.NL]))
  {
    TypeFirstLine(st, line);
    var g := Feed(st, line);
    NewlineCompletes(g.st);
    FeedLast(st, line, C.NL);
  }

  /** Feeding one more character continues from where the prefix left off. */
  lemma FeedLast(st: St, a: seq<u8>, c: u8)
    requires Inv(st)
    ensures var g := Feed(st, a);
            var h := AddChar(g.st, c);
            Feed(st, a + [c]) == Fed(h.st, g.cmds + CmdList(h.cmd))
  {
    FeedOne(Feed(st, a).st, c);
    FeedAppend(st, a, [c]);
  }

  /** A printable line from the start of an empty slot, not opening a
      binary command: nothing completes and the slot holds the line. */
  lemma TypeFirstLine(st: St, line: seq<u8>)
    requires Inv(st) && C.Cur(st.lines) == C.Empty && st.lines.escCnt == 0
    requires forall i :: 0 <= i < |line| ==> C.IsPrint(line[i])
    requires |line| + 1 < BUFFER_SIZE && line != [] && line[0] != BIN_START
    ensures var g := Feed(st, line);
            g.cmds == [] && !g.st.binMode && g.st.lines.escCnt == 0 && g.st.lines.sel == st.lines.sel &&
            C.Cur(g.st.lines) == C.Buffer(line, [])
  {
    FirstChar(st, line[0]);
    var s1 := AddChar(st, line[0]);
    TypeLine(s1.st, line[1..]);
    FeedFirst(st, line);
    assert [line[0]] + line[1..] == line;
  }

  /** The first printable character of a text line starts the line. */
  lemma FirstChar(st: St, c: u8)
    requires Inv(st) && C.Cur(st.lines) == C.Empty && st.lines.escCnt == 0
    requires C.IsPrint(c) && c != BIN_START
    ensures var s := AddChar(st, c);
            s.cmd.None? && !s.st.binMode && s.st.lines.escCnt == 0 && s.st.lines.sel == st.lines.sel &&
            C.Cur(s.st.lines) == C.Buffer([c], [])
  {
    var p := St(st.lines, false, -1);
    TextStepEffects(p, c);
    assert AddChar(st, c) == TextStep(p, c);
  }

  /** A newline ends a started text line: the line is handed over and stays
      in its slot, and the other slot is selected, empty. */
  lemma NewlineCompletes(st: St)
    requires Inv(st) && !st.binMode && st.lines.escCnt == 0 && C.Cur(st.lines).content != []
    ensures var h := AddChar(st, C.NL);
            h.cmd == Some(Text(C.Cur(st.lines))) && AtStart(h.st) && !h.st.binMode &&
            h.st.lines.sel == (st.lines.sel + 1) % C.HISTORY &&
            h.st.lines.bufs[st.lines.sel] == C.Cur(st.lines)
  {
    InLine(st, C.NL);
    TextStepEffects(st, C.NL);
  }

  /** The up arrow after a text command brings the command's line back,
      ready to be edited or sent again. */
  lemma RecallAfterCommand(st: St, line: seq<u8>)
    requires Inv(st) && C.Cur(st.lines) == C.Empty && st.lines.escCnt == 0
    requires forall i :: 0 <= i < |line| ==> C.IsPrint(line[i])
    requires |line| + 1 < BUFFER_SIZE && (line == [] || line[0] != BIN_START)
    ensures var f := Feed(st, line + [C.NL] + C.UP_ARROW);
            f.cmds == [Text(C.Buffer(line, []))] && C.Cur(f.st.lines).content == line &&
            f.st.lines.sel == st.lines.sel && !f.st.binMode
  {
    TextCommand(st, line);
    var f := Feed(st, line + [C.NL]);
    FeedAppend(st, line + [C.NL], C.UP_ARROW);
    UpArrowAtStart(f.st);
    var g := Feed(f.st, C.UP_ARROW);
    C.OtherTwice(st.lines.sel);
    assert (f.st.lines.sel + 1) % C.HISTORY == st.lines.sel;
    C.PrintableKeepsRecall(line);
    assert C.Cur(g.st.lines).content == line;
    assert Feed(st, line + [C.NL] + C.UP_ARROW) == Fed(g.st, [Text(C.Buffer(line, []))] + []);
  }

  /** ESC [ A at the start of a line recalls the other slot, completing
      nothing. */
  lemma UpArrowAtStart(st: St)
    requires Inv(st) && AtStart(st) && !st.binMode
    ensures var f := Feed(st, C.UP_ARROW);
            f.cmds == [] && !f.st.binMode && f.st.lines.sel == (st.lines.sel + 1) % C.HISTORY &&
            C.Cur(f.st.lines).content == C.SpacesForNuls(st.lines.bufs[(st.lines.sel + 1) % C.HISTORY].content)
  {
    C.UpArrowRecalls(st.lines, BUFFER_SIZE);
    EscapeIsText(st);
  }

  /** The three characters of ESC [ A from the start of a line all go to
      the line editor and complete nothing. */
  lemma EscapeIsText(st: St)
    requires Inv(st) && AtStart(st) && !st.binMode
    ensures var a := C.TextChar(st.lines, 0x1B, BUFFER_SIZE).lines;
            var b := C.TextChar(a, 0x5B, BUFFER_SIZE).lines;
            var d := C.TextChar(b, 0x41, BUFFER_SIZE);
            Feed(st, C.UP_ARROW) == Fed(St(d.lines, false, -1), [])
  {
    var a := AddChar(st, 0x1B);
    var b := AddChar(a.st, 0x5B);
    InLine(a.st, 0x5B);
    InLine(b.st, 0x41);
    FeedOne(b.st, 0x41);
    FeedAppend(a.st, [0x5B], [0x41]);
    FeedOne(a.st, 0x5B);
    FeedAppend(st, [0x1B], [0x5B, 0x41]);
    FeedOne(st, 0x1B);
    assert C.UP_ARROW == [0x1B] + ([0x5B] + [0x41]);
  }

  /** As written, the 64-byte console recalls a 63-character line, the
      longest a line can complete with, and stores the next printable
      character with no room check: the fill index reaches 64, so the NUL
      after it lands one byte past the buffer. The console this model
      runs (TextStep) stores a character only while the line has room. */
  lemma RecalledFullLineOverflows(st: St, c: u8)
    requires Inv(st) && AtStart(st) && !st.binMode && C.IsPrint(c)
    requires |st.lines.bufs[(st.lines.sel + 1) % C.HISTORY].content| == BUFFER_SIZE - 1
    ensures var a := C.TextCharAsWritten(st.lines, 0x1B, BUFFER_SIZE).lines;
            var b := C.TextCharAsWritten(a, 0x5B, BUFFER_SIZE).lines;
            var d := C.TextCharAsWritten(b, 0x41, BUFFER_SIZE).lines;
            var e := C.TextCharAsWritten(d, c, BUFFER_SIZE);
            e.done && |C.Cur(e.lines).content| == BUFFER_SIZE
  {
    C.RecalledFullLineOverflows(st.lines, BUFFER_SIZE, c);
  }

  /** svc_Cmd_processText: the line's words, its length passed as a
      uint8_t, handed to the menu walk of tst.c. A line typed without a
      trailing backspace gives the walk its words. */
  function ProcessText(menu: seq<Tst.Entry>, line: C.Buffer, leafRet: int): (r: Tst.TextOutcome)
    ensures |line.content| < 256 && line.tail == [] && C.NUL !in line.content ==>
              r == Tst.HandlerText(menu, C.Strs(C.LineWords(line)), leafRet)
  {
    ShortLineWords(line);
    Tst.HandlerText(menu, C.Strs(C.ProcessTextWords(line, |line.content| % 256)), leafRet)
  }

  lemma ShortLineWords(line: C.Buffer)
    ensures |line.content| < 256 && line.tail == [] && C.NUL !in line.content ==>
              C.ProcessTextWords(line, |line.content| % 256) == C.LineWords(line)
  {
    if |line.content| < 256 && line.tail == [] && C.NUL !in line.content {
      assert |line.content| % 256 == |line.content|;
      C.ProcessTextWordsWithoutTail(line);
    }
  }

  /** svc_Cmd_processBinary: the buffer goes to the binary handler of
      tst.c, which accepts anything. */
  function ProcessBinary(buf: seq<u8>): (r: int)
    ensures r == Tst.STATUS_OK
  {
    Tst.HandlerBinary(buf)
  }
}
