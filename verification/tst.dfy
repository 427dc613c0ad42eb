/** The text-command menus (tst.h, tst.c): a table of named entries, each
    either a submenu or a leaf handler, closed by an end element. A command
    line's words walk down the menus until a leaf takes the remaining words
    as its arguments. */
module Tst {
  import opened Wrappers
  import opened Bytes

  const STATUS_OK: int := 0
  const STATUS_ERROR: int := -1

  /** tst_TableElement_t; a leaf's handler is represented by a number. */
  datatype Entry =
    | Menu(cmd: string, help: string, sub: seq<Entry>)
    | Leaf(cmd: string, help: string, handler: nat)
    | End

  /** The entries a scan visits: those before the first end element. */
  function Listed(level: seq<Entry>): (r: seq<Entry>)
    ensures |r| <= |level| && r == level[..|r|]
    ensures forall j :: 0 <= j < |r| ==> !r[j].End?
    ensures |r| < |level| ==> level[|r|].End?
  {
    if level == [] || level[0].End? then []
    else [level[0]] + Listed(level[1..])
  }

  /** The scan of one table for a word: the index of the first entry named
      by it, or the index of the end element when none is. */
  function Find(level: seq<Entry>, word: string): (k: nat)
    ensures k <= |level|
    ensures forall j :: 0 <= j < k ==> !level[j].End? && level[j].cmd != word
    ensures k < |level| ==> level[k].End? || level[k].cmd == word
  {
    if level == [] || level[0].End? || level[0].cmd == word then 0
    else 1 + Find(level[1..], word)
  }

  /** Where the walk over the words stops. The level is the table position
      the walk was left at, read from there up to its end element. */
  datatype WalkEnd =
    | LeafCalled(handler: nat, args: seq<string>)
    | HelpRequested(level: seq<Entry>)
    | NoLeaf(level: seq<Entry>)

  /** A word starting with '?' asks for help at the current level. */
  predicate IsHelp(word: string) {
    |word| > 0 && word[0] == '?'
  }

  /** The loop of svc_Cmd_handlerText: a matching submenu becomes the
      current level, a matching leaf is called with the words after it,
      and a word that matches nothing leaves the position at the end
      element, where no later word can match. */
  function Walk(level: seq<Entry>, words: seq<string>): (r: WalkEnd)
    ensures r.LeafCalled? ==> |r.args| < |words| && r.args == words[|words| - |r.args|..]
    decreases |words|
  {
    if words == [] then NoLeaf(level)
    else if IsHelp(words[0]) then HelpRequested(level)
    else
      var k := Find(level, words[0]);
      if k < |level| && !level[k].End? then
        match level[k]
        case Menu(_, _, sub) =>
          var r := Walk(sub, words[1..]);
          assert r.LeafCalled? ==> words[1..][|words| - 1 - |r.args|..] == words[|words| - |r.args|..];
          r
        case Leaf(_, _, h) =>
          assert words[1..] == words[|words| - (|words| - 1)..];
          LeafCalled(h, words[1..])
      else
        var r := Walk(level[k..], words[1..]);
        assert r.LeafCalled? ==> words[1..][|words| - 1 - |r.args|..] == words[|words| - |r.args|..];
        r
  }

  /** The first entry named by a word decides: a submenu continues the walk
      one level down, a leaf is called with the rest of the line. */
  lemma WalkFollowsEntry(level: seq<Entry>, word: string, rest: seq<string>)
    requires !IsHelp(word)
    requires Find(level, word) < |level| && !level[Find(level, word)].End?
    ensures level[Find(level, word)].Menu? ==> Walk(level, [word] + rest) == Walk(level[Find(level, word)].sub, rest)
    ensures level[Find(level, word)].Leaf? ==> Walk(level, [word] + rest) == LeafCalled(level[Find(level, word)].handler, rest)
  {
    assert ([word] + rest)[1..] == rest;
  }

  /** After a word that names nothing at its level, no handler runs and any
      help listing is empty. */
  lemma {:induction false} UnknownWordSilencesRest(level: seq<Entry>, word: string, rest: seq<string>)
    requires !IsHelp(word) && (Find(level, word) == |level| || level[Find(level, word)].End?)
    ensures !Walk(level, [word] + rest).LeafCalled?
    ensures Walk(level, [word] + rest).HelpRequested? ==> Listed(Walk(level, [word] + rest).level) == []
    ensures Walk(level, [word] + rest).NoLeaf? ==> Listed(Walk(level, [word] + rest).level) == []
  {
    assert ([word] + rest)[1..] == rest;
    AtEndStaysAtEnd(level[Find(level, word)..], rest);
  }

  lemma {:induction false} AtEndStaysAtEnd(level: seq<Entry>, words: seq<string>)
    requires level == [] || level[0].End?
    ensures !Walk(level, words).LeafCalled?
    ensures Walk(level, words).HelpRequested? ==> Listed(Walk(level, words).level) == []
    ensures Walk(level, words).NoLeaf? ==> Listed(Walk(level, words).level) == []
    decreases |words|
  {
    if words != [] && !IsHelp(words[0]) {
      assert Find(level, words[0]) == 0;
      AtEndStaysAtEnd(level, words[1..]);
    }
  }

  /** What a text command produced: the handler's status, the levels whose
      help was printed, in order, and the handler called, if any. */
  datatype TextOutcome = TextOutcome(ret: int, helpDumps: seq<seq<Entry>>, called: Option<nat>)

  /** svc_Cmd_handlerText: prints help only for '?'; the status is the
      leaf's status (leafRet) when a leaf ran and ERROR otherwise. */
  function HandlerText(menu: seq<Entry>, words: seq<string>, leafRet: int): (r: TextOutcome)
    ensures r.called.Some? <==> Walk(menu, words).LeafCalled?
    ensures r.ret == (if r.called.Some? then leafRet else STATUS_ERROR)
    ensures r.helpDumps == (if Walk(menu, words).HelpRequested? then [Walk(menu, words).level] else [])
  {
    match Walk(menu, words)
    case LeafCalled(h, _) => TextOutcome(leafRet, [], Some(h))
    case HelpRequested(level) => TextOutcome(STATUS_ERROR, [level], None)
    case NoLeaf(_) => TextOutcome(STATUS_ERROR, [], None)
  }

  /** svc_Cmd_handlerBinary ignores its input. */
  function HandlerBinary(buf: seq<u8>): (r: int)
    ensures r == STATUS_OK
  {
    0
  }
}
