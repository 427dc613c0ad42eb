/** The serial console's line editing, common to both command parsers
    (svc_CmdEh.c and svc_Cmd.c): two history buffers, printable characters
    appended, backspace and delete, the ESC [ A up-arrow recall of the other
    buffer, and processText's whitespace tokenizer. A buffer is modelled by
    its contents below the fill index; terminal echo is not modelled. */
module Console {
  import opened Wrappers
  import opened Bytes

  const ESC: u8 := 0x1B
  const BS: u8 := 0x08
  const DEL: u8 := 0x7F
  const NL: u8 := 0x0A
  const SPACE: u8 := 0x20
  const NUL: u8 := 0
  const UP_ARROW: seq<u8> := [0x1B, 0x5B, 0x41]
  const HISTORY: nat := 2

  /** isprint and isspace of the C library in the "C" locale. */
  predicate IsPrint(c: u8) { 0x20 <= c <= 0x7E }
  predicate IsSpace(c: u8) { c == SPACE || 0x09 <= c <= 0x0D }

  /** One history buffer: the bytes below its fill index, and the bytes
      from the fill index up to the first NUL in memory. The tail is empty
      after every ADD_CHAR (which writes a NUL behind the character) and
      after a reset; a backspace only lowers the index, so the character
      it removes stays in memory and becomes the head of the tail. */
  datatype Buffer = Buffer(content: seq<u8>, tail: seq<u8>)

  const Empty: Buffer := Buffer([], [])

  /** SVC_CMD(EH)_BUFFER_ADD_CHAR. */
  function AddChar(b: Buffer, c: u8): (r: Buffer)
    ensures r.content == b.content + [c] && r.tail == []
  {
    Buffer(b.content + [c], [])
  }

  /** The backspace branch: the index drops by one when it is positive and
      nothing is cleared. */
  function Backspace(b: Buffer): (r: Buffer)
    ensures |b.content| >= 1 ==> r.content == b.content[..|b.content| - 1]
    ensures |b.content| >= 1 && b.content[|b.content| - 1] != NUL ==>
              r.tail == [b.content[|b.content| - 1]] + b.tail
    ensures b.content == [] ==> r == b
  {
    var n := |b.content|;
    if n == 0 then b
    else if b.content[n - 1] == NUL then Buffer(b.content[..n - 1], [])
    else Buffer(b.content[..n - 1], [b.content[n - 1]] + b.tail)
  }

  /** The history buffers, the selected one, and the escape-sequence
      collector (esc_buf, esc_cnt). */
  datatype Lines = Lines(bufs: seq<Buffer>, sel: nat, esc: seq<u8>, escCnt: nat)

  predicate Valid(l: Lines) {
    |l.bufs| == HISTORY && l.sel < HISTORY && |l.esc| == 3 && l.escCnt <= 2
  }

  /** Selecting the next slot twice comes back to the same slot. */
  lemma OtherTwice(s: nat)
    requires s < HISTORY
    ensures ((s + 1) % HISTORY + 1) % HISTORY == s
  {
  }

  /** bufferInit: both buffers empty (memory zeroed), the first selected. */
  function Init(): (l: Lines)
    ensures Valid(l) && l.sel == 0 && l.escCnt == 0
    ensures forall k :: 0 <= k < HISTORY ==> l.bufs[k] == Empty
  {
    Lines([Empty, Empty], 0, [0, 0, 0], 0)
  }

  function Cur(l: Lines): Buffer
    requires Valid(l)
  {
    l.bufs[l.sel]
  }

  function SetCur(l: Lines, b: Buffer): (r: Lines)
    requires Valid(l)
    ensures Valid(r) && Cur(r) == b && r.sel == l.sel && r.esc == l.esc && r.escCnt == l.escCnt
    ensures forall k :: 0 <= k < HISTORY && k != l.sel ==> r.bufs[k] == l.bufs[k]
  {
    l.(bufs := l.bufs[l.sel := b])
  }

  /** After a completed command: select the next history slot and reset it
      (index 0, a NUL at position 0), keeping the completed line in the
      slot just left. */
  function Next(l: Lines): (r: Lines)
    requires Valid(l)
    ensures Valid(r) && r.sel == (l.sel + 1) % HISTORY && Cur(r) == Empty
    ensures r.bufs[l.sel] == l.bufs[l.sel] && r.escCnt == l.escCnt
  {
    SetCur(l.(sel := (l.sel + 1) % HISTORY), Empty)
  }

  /** processText NULs the whitespace of the line in place. */
  function NulSpaces(s: seq<u8>): (r: seq<u8>)
    ensures |r| == |s|
    ensures forall i :: 0 <= i < |s| ==> r[i] == (if IsSpace(s[i]) then NUL else s[i])
  {
    seq(|s|, i requires 0 <= i < |s| => if IsSpace(s[i]) then NUL else s[i])
  }

  /** The up-arrow recall turns NULs back into spaces. */
  function SpacesForNuls(s: seq<u8>): (r: seq<u8>)
    ensures |r| == |s|
    ensures forall i :: 0 <= i < |s| ==> r[i] == (if s[i] == NUL then SPACE else s[i])
  {
    seq(|s|, i requires 0 <= i < |s| => if s[i] == NUL then SPACE else s[i])
  }

  /** A typed line holds only printable characters, whose only whitespace
      is the space; recalling it after processText restores it exactly,
      which is why the model keeps the line as typed. */
  lemma RecallRestoresLine(s: seq<u8>)
    requires forall i :: 0 <= i < |s| ==> IsPrint(s[i])
    ensures SpacesForNuls(NulSpaces(s)) == s
  {
  }

  /** The up arrow: select the other buffer and turn the NULs below its
      index into spaces. */
  function Recall(l: Lines): (r: Lines)
    requires Valid(l)
    ensures Valid(r) && r.sel == (l.sel + 1) % HISTORY
    ensures Cur(r).content == SpacesForNuls(l.bufs[r.sel].content) && Cur(r).tail == l.bufs[r.sel].tail
    ensures r.bufs[l.sel] == l.bufs[l.sel]
  {
    var l2 := l.(sel := (l.sel + 1) % HISTORY);
    SetCur(l2, Buffer(SpacesForNuls(Cur(l2).content), Cur(l2).tail))
  }

  /** One character in text mode, for a buffer of `size` bytes: whether the
      command is complete afterwards comes with the new lines. */
  datatype Edited = Edited(lines: Lines, done: bool)

  /** The text branch of bufferAddChar. `guarded` says whether a printable
      character is stored only while the line has room for it and the NUL
      behind it; the firmware stores it unconditionally. */
  function Edit(l: Lines, c: u8, size: nat, guarded: bool): (r: Edited)
    requires Valid(l)
    ensures Valid(r.lines)
  {
    if l.escCnt > 0 then
      var l1 := l.(esc := l.esc[3 - l.escCnt := c], escCnt := l.escCnt - 1);
      if l1.escCnt == 0 && l1.esc == UP_ARROW then Edited(Recall(l1), false) else Edited(l1, false)
    else
      var l1 :=
        if c == ESC then l.(esc := l.esc[0 := c], escCnt := 2)
        else if c == BS || c == DEL then SetCur(l, Backspace(Cur(l)))
        else if IsPrint(c) && (!guarded || |Cur(l).content| + 1 < size) then SetCur(l, AddChar(Cur(l), c))
        else l;
      Edited(l1, c == NL || |Cur(l1).content| + 1 >= size)
  }

  /** The text branch as written. */
  function TextCharAsWritten(l: Lines, c: u8, size: nat): (r: Edited)
    requires Valid(l)
    ensures Valid(r.lines)
  {
    Edit(l, c, size, false)
  }

  /** The text branch with the fill index kept inside the buffer, as the
      completion rule (a line ends when it holds size - 1 characters)
      evidently intends. */
  function TextChar(l: Lines, c: u8, size: nat): (r: Edited)
    requires Valid(l)
    ensures Valid(r.lines)
  {
    Edit(l, c, size, true)
  }

  /** What one text-mode character does: the line is complete on a newline
      or when it fills the buffer; a printable character is appended while
      there is room, BS and DEL erase, other control characters change
      nothing, and the characters of an escape sequence are only counted
      down. */
  lemma TextCharEffects(l: Lines, c: u8, size: nat)
    requires Valid(l)
    ensures var r := TextChar(l, c, size);
            r.done <==> l.escCnt == 0 && (c == NL || |Cur(r.lines).content| + 1 >= size)
    ensures var r := TextChar(l, c, size);
            l.escCnt == 0 && IsPrint(c) && |Cur(l).content| + 1 < size ==> Cur(r.lines) == AddChar(Cur(l), c)
    ensures var r := TextChar(l, c, size);
            l.escCnt == 0 && (c == BS || c == DEL) ==> Cur(r.lines) == Backspace(Cur(l))
    ensures var r := TextChar(l, c, size);
            l.escCnt == 0 && c != ESC ==> r.lines.sel == l.sel && r.lines.escCnt == 0
    ensures var r := TextChar(l, c, size);
            l.escCnt == 0 && c != ESC ==> forall k :: 0 <= k < HISTORY && k != l.sel ==> r.lines.bufs[k] == l.bufs[k]
    ensures var r := TextChar(l, c, size);
            l.escCnt == 0 && (!IsPrint(c) || |Cur(l).content| + 1 >= size) && c != BS && c != DEL && c != ESC ==> r.lines == l
    ensures var r := TextChar(l, c, size);
            l.escCnt > 0 ==> r.lines.escCnt == l.escCnt - 1
  {
  }

  /** The guard only matters for a printable character arriving when the
      line already holds size - 1 characters, which after a completed line
      only a recall can bring about; otherwise both branches agree. */
  lemma TextCharAsWrittenAgreesWithRoom(l: Lines, c: u8, size: nat)
    requires Valid(l)
    requires l.escCnt > 0 || !IsPrint(c) || |Cur(l).content| + 1 < size
    ensures TextCharAsWritten(l, c, size) == TextChar(l, c, size)
  {
  }

  /** Every buffer holds fewer than `size` bytes below its index. */
  predicate Fits(l: Lines, size: nat)
    requires Valid(l)
  {
    forall k :: 0 <= k < HISTORY ==> |l.bufs[k].content| < size
  }

  /** With the guard, no character, recall included, ever moves a fill
      index to the end of its buffer, and a completed line keeps its slot
      within bounds once the next slot is selected. */
  lemma TextCharFits(l: Lines, c: u8, size: nat)
    requires Valid(l) && Fits(l, size)
    ensures Fits(TextChar(l, c, size).lines, size)
    ensures Fits(Next(TextChar(l, c, size).lines), size)
  {
    var r := TextChar(l, c, size).lines;
    assert forall k :: 0 <= k < HISTORY ==> r.bufs[k] == l.bufs[k] || r.bufs[k] == Cur(r) || k == r.sel;
  }

  /** As written, a line completed at size - 1 characters, recalled with the
      up arrow and given one more character reaches a fill index of `size`:
      ADD_CHAR then writes its NUL at buffer[size], outside the buffer. */
  lemma RecalledFullLineOverflows(l: Lines, size: nat, c: u8)
    requires Valid(l) && l.escCnt == 0 && size >= 1 && IsPrint(c)
    requires |l.bufs[(l.sel + 1) % HISTORY].content| == size - 1
    ensures var a := TextCharAsWritten(l, 0x1B, size).lines;
            var b := TextCharAsWritten(a, 0x5B, size).lines;
            var d := TextCharAsWritten(b, 0x41, size).lines;
            var e := TextCharAsWritten(d, c, size);
            e.done && |Cur(e.lines).content| == size
  {
    var a := TextCharAsWritten(l, 0x1B, size).lines;
    var b := TextCharAsWritten(a, 0x5B, size).lines;
    assert b.esc[0] == 0x1B && b.esc[1] == 0x5B && b.escCnt == 1;
    assert b.esc[2 := 0x41] == UP_ARROW;
  }

  /** ESC [ A typed with no escape pending recalls the other buffer. */
  lemma UpArrowRecalls(l: Lines, size: nat)
    requires Valid(l) && l.escCnt == 0
    ensures var a := TextChar(l, 0x1B, size).lines;
            var b := TextChar(a, 0x5B, size).lines;
            var d := TextChar(b, 0x41, size);
            !d.done && d.lines.sel == (l.sel + 1) % HISTORY &&
            Cur(d.lines).content == SpacesForNuls(l.bufs[(l.sel + 1) % HISTORY].content)
  {
    var a := TextChar(l, 0x1B, size).lines;
    var b := TextChar(a, 0x5B, size).lines;
    assert b.esc[0] == 0x1B && b.esc[1] == 0x5B && b.escCnt == 1;
    assert b.esc[2 := 0x41] == UP_ARROW;
  }

  /** The recall loop as written: a uint8_t counter runs while it is below
      the fill index, turning NULs into spaces. `fuel` bounds the number of
      iterations modelled; None means the loop was still running when the
      fuel ran out. */
  function RecallLoop(s: seq<u8>, i: u8, fuel: nat): (r: Option<seq<u8>>)
    ensures r.Some? ==> |r.value| == |s|
    decreases fuel
  {
    if !(i < |s|) then Some(s)
    else if fuel == 0 then None
    else RecallLoop(s[i := if s[i] == NUL then SPACE else s[i]], (i + 1) % 256, fuel - 1)
  }

  /** Below 256 characters the loop ends, having recalled the whole line. */
  lemma {:induction false} RecallLoopShortLine(s: seq<u8>, i: u8, fuel: nat)
    requires |s| < 256 && i <= |s| && fuel >= |s| - i
    ensures RecallLoop(s, i, fuel) == Some(s[..i] + SpacesForNuls(s[i..]))
    decreases |s| - i
  {
    if i < |s| {
      var s1 := s[i := if s[i] == NUL then SPACE else s[i]];
      RecallLoopShortLine(s1, i + 1, fuel - 1);
      RecallOne(s, i as nat);
    } else {
      assert s[..i] + SpacesForNuls(s[i..]) == s;
    }
  }

  /** A printable line has no NUL, so recalling it changes nothing. */
  lemma PrintableKeepsRecall(s: seq<u8>)
    requires forall i :: 0 <= i < |s| ==> IsPrint(s[i])
    ensures SpacesForNuls(s) == s
  {
    assert forall i :: 0 <= i < |s| ==> s[i] != NUL;
  }

  /** One iteration of the recall loop moves one character from the
      untouched part to the recalled part. */
  lemma RecallOne(s: seq<u8>, i: nat)
    requires i < |s|
    ensures var s1 := s[i := if s[i] == NUL then SPACE else s[i]];
            s1[..i + 1] + SpacesForNuls(s1[i + 1..]) == s[..i] + SpacesForNuls(s[i..])
  {
    var s1 := s[i := if s[i] == NUL then SPACE else s[i]];
    var a := s1[..i + 1] + SpacesForNuls(s1[i + 1..]);
    var b := s[..i] + SpacesForNuls(s[i..]);
    assert |a| == |b|;
    forall k | 0 <= k < |a|
      ensures a[k] == b[k]
    {
      if k > i {
        assert a[k] == SpacesForNuls(s1[i + 1..])[k - i - 1];
        assert b[k] == SpacesForNuls(s[i..])[k - i];
      }
    }
  }

  /** From 256 characters on the counter wraps before reaching the index,
      so the loop never ends, however much fuel it is given. */
  lemma {:induction false} RecallLoopLongLineHangs(s: seq<u8>, i: u8, fuel: nat)
    requires |s| >= 256
    ensures RecallLoop(s, i, fuel) == None
    decreases fuel
  {
    if fuel > 0 {
      RecallLoopLongLineHangs(s[i := if s[i] == NUL then SPACE else s[i]], (i + 1) % 256, fuel - 1);
    }
  }

  /** Length of the word at the start of s. */
  function WordLen(s: seq<u8>): (n: nat)
    ensures n <= |s|
    ensures forall i :: 0 <= i < n ==> !IsSpace(s[i])
    ensures n < |s| ==> IsSpace(s[n])
  {
    if s == [] || IsSpace(s[0]) then 0 else 1 + WordLen(s[1..])
  }

  predicate IsWord(w: seq<u8>) {
    |w| > 0 && forall i :: 0 <= i < |w| ==> !IsSpace(w[i])
  }

  /** processText's tokenizer: the maximal runs of non-whitespace, in order. */
  function Tokens(s: seq<u8>): (r: seq<seq<u8>>)
    ensures forall k :: 0 <= k < |r| ==> IsWord(r[k])
    ensures 2 * |r| <= |s| + 1
    ensures |s| > 0 && IsSpace(s[0]) ==> 2 * |r| <= |s|
    decreases |s|
  {
    if s == [] then []
    else if IsSpace(s[0]) then Tokens(s[1..])
    else
      var n := WordLen(s);
      [s[..n]] + Tokens(s[n..])
  }

  /** Words written with one space between them. */
  function Join(ws: seq<seq<u8>>): (s: seq<u8>)
  {
    if ws == [] then [] else if |ws| == 1 then ws[0] else ws[0] + [SPACE] + Join(ws[1..])
  }

  /** Tokenizing words joined by spaces gives the words back. */
  lemma {:induction false} TokensOfJoin(ws: seq<seq<u8>>)
    requires forall k :: 0 <= k < |ws| ==> IsWord(ws[k])
    ensures Tokens(Join(ws)) == ws
  {
    if ws != [] {
      var s := Join(ws);
      if |ws| == 1 {
        assert s == ws[0] + [];
        WordLenOfWord(ws[0], []);
        assert s[WordLen(s)..] == [];
        assert ws == [ws[0]];
      } else {
        var rest := Join(ws[1..]);
        assert s == ws[0] + ([SPACE] + rest);
        WordLenOfWord(ws[0], [SPACE] + rest);
        assert s[WordLen(s)..] == [SPACE] + rest;
        assert ([SPACE] + rest)[1..] == rest;
        TokensOfJoin(ws[1..]);
      }
    }
  }

  lemma {:induction false} WordLenOfWord(w: seq<u8>, tail: seq<u8>)
    requires IsWord(w) && (tail == [] || IsSpace(tail[0]))
    ensures WordLen(w + tail) == |w| && (w + tail)[..|w|] == w
    decreases |w|
  {
    if |w| > 1 {
      assert (w + tail)[1..] == w[1..] + tail;
      WordLenOfWord(w[1..], tail);
    } else {
      assert (w + tail)[1..] == tail;
    }
  }

  /** The bytes of a C string: everything before the first NUL. */
  function CString(s: seq<u8>): (r: seq<u8>)
    ensures |r| <= |s| && r == s[..|r|] && NUL !in r
    ensures |r| < |s| ==> s[|r|] == NUL
  {
    if s == [] || s[0] == NUL then [] else [s[0]] + CString(s[1..])
  }

  /** The strings processText's argv points at, as written. `s` is the part
      of the first len bytes not yet scanned and `after` the memory behind
      them, up to a NUL. A token is a maximal run of non-whitespace in `s`;
      its string ends at the NUL that replaced the whitespace behind it, at
      a NUL inside it, or, for a run that reaches len, wherever the memory
      behind len next holds a NUL. */
  function Argv(s: seq<u8>, after: seq<u8>): (r: seq<seq<u8>>)
    ensures |r| == |Tokens(s)|
    decreases |s|
  {
    if s == [] then []
    else if IsSpace(s[0]) then Argv(s[1..], after)
    else
      var n := WordLen(s);
      [CString(if n < |s| then s[..n] else s + after)] + Argv(s[n..], after)
  }

  /** The words processText passes to the text handler for a buffer and the
      len argument it is called with. */
  function ProcessTextWords(b: Buffer, len: nat): (r: seq<seq<u8>>)
    requires len <= |b.content|
    ensures |r| == |Tokens(b.content[..len])|
  {
    Argv(b.content[..len], b.content[len..] + b.tail)
  }

  /** The words of the line as the user sees it: the tokens of the bytes
      below the index. */
  function LineWords(b: Buffer): (r: seq<seq<u8>>)
    ensures forall k :: 0 <= k < |r| ==> IsWord(r[k])
    ensures 2 * |r| <= |b.content| + 1
  {
    Tokens(b.content)
  }

  /** With no NUL in the line and nothing behind its end, the argv strings
      are exactly the line's words. */
  lemma {:induction false} ArgvIsTokens(s: seq<u8>, after: seq<u8>)
    requires NUL !in s && CString(after) == []
    ensures Argv(s, after) == Tokens(s)
    decreases |s|
  {
    if s != [] {
      if IsSpace(s[0]) {
        ArgvIsTokens(s[1..], after);
      } else {
        var n := WordLen(s);
        NoNulCString(s[..n]);
        if n == |s| {
          CStringAppend(s, after);
          assert s[..n] == s;
        }
        ArgvIsTokens(s[n..], after);
      }
    }
  }

  lemma {:induction false} NoNulCString(s: seq<u8>)
    requires NUL !in s
    ensures CString(s) == s
  {
    if s != [] {
      NoNulCString(s[1..]);
    }
  }

  lemma {:induction false} CStringAppend(s: seq<u8>, after: seq<u8>)
    requires NUL !in s
    ensures CString(s + after) == s + CString(after)
  {
    if s != [] {
      assert (s + after)[1..] == s[1..] + after;
      CStringAppend(s[1..], after);
    } else {
      assert s + after == after;
    }
  }

  /** So a buffer edited without a trailing backspace hands the handler its
      words. */
  lemma ProcessTextWordsWithoutTail(b: Buffer)
    requires NUL !in b.content && b.tail == []
    ensures ProcessTextWords(b, |b.content|) == LineWords(b)
  {
    assert b.content[..|b.content|] == b.content;
    assert b.content[|b.content|..] + b.tail == [];
    ArgvIsTokens(b.content, []);
  }

  /** A character typed and erased is gone from the line's words. */
  lemma BackspaceErasesChar(b: Buffer, c: u8)
    ensures LineWords(Backspace(AddChar(b, c))) == LineWords(b)
  {
    assert (b.content + [c])[..|b.content|] == b.content;
  }

  /** As written, the erased character is still in memory behind the
      index, and a word that ends at the index runs on into it: typing
      "ab", backspace, then the command end hands the handler "ab". */
  lemma BackspaceLeaksIntoArgv()
    ensures var b := Backspace(AddChar(AddChar(Empty, 0x61), 0x62));
            LineWords(b) == [[0x61]] && ProcessTextWords(b, |b.content|) == [[0x61, 0x62]]
  {
    var b := Backspace(AddChar(AddChar(Empty, 0x61), 0x62));
    assert b == Buffer([0x61], [0x62]);
    assert WordLen(b.content) == 1;
    assert b.content[..1] == b.content && b.content[1..] == [];
    assert Tokens(b.content) == [[0x61]] + Tokens([]);
    assert CString([0x62]) == [0x62] + CString([]);
    assert CString([0x61, 0x62]) == [0x61] + CString([0x62]);
    assert b.content + ([] + b.tail) == [0x61, 0x62];
    assert ProcessTextWords(b, 1) == [CString([0x61, 0x62])] + Argv([], [0x62]);
  }

  /** The words as the menu walk sees them. */
  function Str(w: seq<u8>): (s: string)
    ensures |s| == |w| && forall i :: 0 <= i < |w| ==> s[i] == w[i] as char
  {
    seq(|w|, i requires 0 <= i < |w| => w[i] as char)
  }

  function Strs(ws: seq<seq<u8>>): (r: seq<string>)
    ensures |r| == |ws| && forall k :: 0 <= k < |ws| ==> r[k] == Str(ws[k])
  {
    seq(|ws|, k requires 0 <= k < |ws| => Str(ws[k]))
  }
}
