/** The terminal on its output stream: command dispatch, help, and what process_input() writes. */
module Terminals {
  import opened Queue
  import opened RingBuffers
  import opened UsartStreams
  import opened LineEditors

  // ---------- command dispatch ----------

  datatype Action = Run(hook: nat) | Help | NotFound

  /** terminal_hook_list::execute: hooks[0..] are the commands of the remaining list. */
  function Dispatch(hooks: seq<seq<char>>, line: seq<char>): Action {
    if hooks == [] then (if line == "help" then Help else NotFound)
    else if hooks[0] == line then Run(0)
    else
      match Dispatch(hooks[1..], line)
      case Run(k) => Run(k + 1)
      case other => other
  }

  /** The first hook with that name runs; "help" works unless a hook takes the name. */
  lemma {:induction false} DispatchFindsFirst(hooks: seq<seq<char>>, line: seq<char>, k: nat)
    ensures Dispatch(hooks, line) == Run(k) <==> k < |hooks| && hooks[k] == line && line !in hooks[..k]
    ensures Dispatch(hooks, line).Help? <==> line !in hooks && line == "help"
  {
    if hooks != [] {
      DispatchFindsFirst(hooks[1..], line, if k > 0 then k - 1 else 0);
      if 0 < k <= |hooks| {
        assert hooks[..k] == [hooks[0]] + hooks[1..][..k - 1];
      }
      assert hooks == [hooks[0]] + hooks[1..];
    }
  }

  // ---------- output ----------

  /** A terminal_hook: its command and its description. */
  datatype Hook = Hook(cmd: seq<char>, desc: seq<char>)

  function Names(hooks: seq<Hook>): (names: seq<seq<char>>)
    ensures |names| == |hooks| && forall k :: 0 <= k < |hooks| ==> names[k] == hooks[k].cmd
  {
    if hooks == [] then [] else [hooks[0].cmd] + Names(hooks[1..])
  }

  const CMD_NOTFOUND: seq<char> := ": command not found (type \"help\" for a list of available commands)"
  const CMD_LIST: seq<char> := "List of commands:"

  /** What the terminal and its hooks are, apart from the state: "replies(k, n)" is what the run() of
      the k-th hook passes to the stream, in blocks, when it is the n-th command executed. */
  datatype Setup = Setup(hooks: seq<Hook>, crlf: bool, replies: (nat, nat) -> seq<seq<char>>)

  function Endl(crlf: bool): seq<seq<char>> {
    if crlf then [['\r'], ['\n']] else [['\n']]
  }

  /** cmd_maxlen: the length of the longest command, at least 8. */
  function MaxLength(hooks: seq<Hook>): (w: nat)
    ensures 8 <= w && forall h :: h in hooks ==> |h.cmd| <= w
    ensures w == 8 || exists h :: h in hooks && |h.cmd| == w
  {
    if hooks == [] then 8
    else
      var w := MaxLength(hooks[1..]);
      if |hooks[0].cmd| > w then |hooks[0].cmd| else w
  }

  function Spaces(n: nat): seq<seq<char>> {
    if n == 0 then [] else [[' ']] + Spaces(n - 1)
  }

  /** terminal_hook_list::list: one line for each hook, the descriptions aligned. */
  function ListBlocks(hooks: seq<Hook>, width: nat, crlf: bool): seq<seq<char>>
    requires forall h :: h in hooks ==> |h.cmd| <= width
  {
    if hooks == [] then []
    else
      ["   ", hooks[0].cmd] + Spaces(width - |hooks[0].cmd| + 3) + [hooks[0].desc] + Endl(crlf)
      + ListBlocks(hooks[1..], width, crlf)
  }

  /** The blocks that an operation offers to the tx queue, "n" commands having been executed before. */
  function OpBlocks(t: Setup, op: Op, n: nat): seq<seq<char>> {
    match op
    case Newline => ["\r\n"]
    case Echo(c) => [[c]]
    case Prompt => ["# "]
    case FlushTx => []
    case Execute(line) =>
      match Dispatch(Names(t.hooks), line)
      case Run(k) => t.replies(k, n)
      case Help => [CMD_LIST] + Endl(t.crlf) + ListBlocks(t.hooks, MaxLength(t.hooks), t.crlf)
      case NotFound => [line, CMD_NOTFOUND] + Endl(t.crlf)
  }

  function Output(t: Setup, ops: seq<Op>, n: nat): seq<seq<char>> {
    if ops == [] then []
    else
      var init := ops[..|ops| - 1];
      Output(t, init, n) + OpBlocks(t, ops[|ops| - 1], n + |Executed(init)|)
  }

  /** The first operations' output followed by that of the others. */
  lemma {:induction false} OutputAppend(t: Setup, a: seq<Op>, b: seq<Op>, n: nat)
    ensures Output(t, a + b, n) == Output(t, a, n) + Output(t, b, n + |Executed(a)|)
    decreases |b|
  {
    hide OpBlocks, Executed;
    if b == [] {
      assert a + b == a;
    } else {
      var init := b[..|b| - 1];
      OutputAppend(t, a, init, n);
      ExecutedAppend(a, init);
      assert (a + b)[..|a + b| - 1] == a + init;
    }
  }

  lemma OutputOfOne(t: Setup, op: Op, n: nat)
    ensures Output(t, [op], n) == OpBlocks(t, op, n)
  {
    hide OpBlocks;
    assert [op][..0] == [] && [] + OpBlocks(t, op, n) == OpBlocks(t, op, n);
  }

  /** The actions taken for the commands executed. */
  function Actions(hooks: seq<Hook>, lines: seq<seq<char>>): seq<Action> {
    if lines == [] then [] else [Dispatch(Names(hooks), lines[0])] + Actions(hooks, lines[1..])
  }

  /** Main result: a stream that does not overrun cmd_buf takes, for each of its non-empty lines in
      order, the action of the first hook of that name, or help, or the not-found message. */
  lemma StreamTakesActions(chunks: seq<seq<char>>, echo: bool, hooks: seq<Hook>)
    requires AllFit(Split(Concat(chunks)).0)
    ensures var e, lines := ProcessCalls(Editor([], []), chunks, echo), Commands(Split(Concat(chunks)).0);
            && e.Editor?
            && Actions(hooks, Executed(e.ops)) == Actions(hooks, lines)
            && |Actions(hooks, lines)| == |lines|
            && forall k: nat, i: nat :: k < |lines| ==>
                 (Actions(hooks, lines)[k] == Run(i) <==>
                    i < |hooks| && hooks[i].cmd == lines[k] && forall j :: 0 <= j < i ==> hooks[j].cmd != lines[k])
  {
    hide ProcessCalls, Split, Commands;
    CallsExecuteLines(chunks, echo);
    var lines := Commands(Split(Concat(chunks)).0);
    forall k: nat, i: nat | k < |lines|
      ensures |Actions(hooks, lines)| == |lines|
      ensures Actions(hooks, lines)[k] == Run(i) <==>
                i < |hooks| && hooks[i].cmd == lines[k] && forall j :: 0 <= j < i ==> hooks[j].cmd != lines[k]
    {
      ActionOf(hooks, lines, k);
      FirstByName(hooks, lines[k], i);
    }
    ActionsLength(hooks, lines);
  }

  lemma {:induction false} ActionsLength(hooks: seq<Hook>, lines: seq<seq<char>>)
    ensures |Actions(hooks, lines)| == |lines|
  {
    if lines != [] {
      ActionsLength(hooks, lines[1..]);
    }
  }

  lemma {:induction false} ActionOf(hooks: seq<Hook>, lines: seq<seq<char>>, k: nat)
    requires k < |lines|
    ensures |Actions(hooks, lines)| == |lines| && Actions(hooks, lines)[k] == Dispatch(Names(hooks), lines[k])
  {
    hide Dispatch;
    ActionsLength(hooks, lines);
    if k > 0 {
      ActionOf(hooks, lines[1..], k - 1);
    }
  }

  lemma FirstByName(hooks: seq<Hook>, line: seq<char>, i: nat)
    ensures Dispatch(Names(hooks), line) == Run(i) <==>
            i < |hooks| && hooks[i].cmd == line && forall j :: 0 <= j < i ==> hooks[j].cmd != line
  {
    hide Dispatch;
    var names := Names(hooks);
    DispatchFindsFirst(names, line, i);
    if i < |hooks| {
      assert forall j :: 0 <= j < i ==> names[..i][j] == hooks[j].cmd;
      assert line in names[..i] <==> exists j :: 0 <= j < i && names[..i][j] == line;
    }
  }

  /** The queue and the accepted stream before and after some blocks were offered. */
  ghost predicate Wrote(q: seq<char>, acc: seq<char>, blocks: seq<seq<char>>, capacity: nat, q': seq<char>, acc': seq<char>) {
    var s := Accepted(q, blocks, capacity);
    q' == q + s && acc' == acc + s
  }

  lemma WroteThen(q: seq<char>, acc: seq<char>, a: seq<seq<char>>, q1: seq<char>, acc1: seq<char>,
                  b: seq<seq<char>>, q2: seq<char>, acc2: seq<char>, capacity: nat)
    requires Wrote(q, acc, a, capacity, q1, acc1) && Wrote(q1, acc1, b, capacity, q2, acc2)
    ensures Wrote(q, acc, a + b, capacity, q2, acc2)
  {
    hide Accepted;
    AcceptedAppend(q, a, b, capacity);
    Associative(q, Accepted(q, a, capacity), Accepted(q1, b, capacity));
    Associative(acc, Accepted(q, a, capacity), Accepted(q1, b, capacity));
  }

  lemma WroteNothing(q: seq<char>, acc: seq<char>, capacity: nat)
    ensures Wrote(q, acc, [], capacity, q, acc)
  {
  }

  /** Whether an operation ends in a flush(); what the hooks flush themselves is left open. */
  predicate Flushes(t: Setup, op: Op) {
    op == FlushTx || (op.Execute? && !Dispatch(Names(t.hooks), op.line).Run?)
  }

  /** A moment in the life of a terminal: the tx queue, the accepted stream, the operations done. */
  datatype Moment = Moment(q: seq<char>, accepted: seq<char>, ops: seq<Op>)

  /** Between two moments, the output of the operations recorded was offered to the tx queue. */
  ghost predicate Produced(t: Setup, capacity: nat, a: Moment, b: Moment) {
    && a.ops <= b.ops
    && Wrote(a.q, a.accepted, Output(t, b.ops[|a.ops|..], |Executed(a.ops)|), capacity, b.q, b.accepted)
  }

  lemma ProducedNothing(t: Setup, capacity: nat, a: Moment)
    ensures Produced(t, capacity, a, a)
  {
  }

  lemma ProducedOne(t: Setup, capacity: nat, a: Moment, b: Moment, op: Op, c: Moment)
    requires Produced(t, capacity, a, b) && c.ops == b.ops + [op]
    requires Wrote(b.q, b.accepted, OpBlocks(t, op, |Executed(b.ops)|), capacity, c.q, c.accepted)
    ensures Produced(t, capacity, a, c)
  {
    hide OpBlocks, Executed, Wrote, Output;
    var done, n := b.ops[|a.ops|..], |Executed(a.ops)|;
    assert b.ops == a.ops + done && c.ops[|a.ops|..] == done + [op];
    ExecutedAppend(a.ops, done);
    OutputAppend(t, done, [op], n);
    OutputOfOne(t, op, |Executed(b.ops)|);
    WroteThen(a.q, a.accepted, Output(t, done, n), b.q, b.accepted,
              OpBlocks(t, op, |Executed(b.ops)|), c.q, c.accepted, capacity);
  }

  // ---------- what a stream makes the terminal write ----------

  /** The echo of the printable characters that find room behind what was typed. */
  function EchoOf(echo: bool, typed: seq<char>, raw: seq<char>): seq<seq<char>>
    requires |typed| <= CMD_BUF_SIZE
  {
    if echo then Singles(Kept(typed + Printables(raw))[|typed|..]) else []
  }

  ghost predicate IsFirst(hooks: seq<Hook>, line: seq<char>, k: nat) {
    k < |hooks| && hooks[k].cmd == line && forall j :: 0 <= j < k ==> hooks[j].cmd != line
  }

  /** The answer to a line: nothing to an empty one, and otherwise the output of the first hook of that
      name, or the list of commands, or the message that there is no such command. */
  ghost function Reply(t: Setup, line: seq<char>, n: nat): seq<seq<char>> {
    if line == [] then []
    else if exists k: nat :: IsFirst(t.hooks, line, k) then
      var k: nat :| IsFirst(t.hooks, line, k);
      t.replies(k, n)
    else if line == "help" then [CMD_LIST] + Endl(t.crlf) + ListBlocks(t.hooks, MaxLength(t.hooks), t.crlf)
    else [line, CMD_NOTFOUND] + Endl(t.crlf)
  }

  /** The blocks written for some lines and an unterminated rest: the echo of each line, a newline, the
      reply, and the prompt. */
  ghost function LinesOutput(t: Setup, echo: bool, typed: seq<char>, lines: seq<seq<char>>, rest: seq<char>, n: nat): seq<seq<char>>
    requires |typed| <= CMD_BUF_SIZE
    decreases |lines|
  {
    if lines == [] then EchoOf(echo, typed, rest)
    else
      var command := Kept(typed + Printables(lines[0]));
      EchoOf(echo, typed, lines[0]) + Answer(t, echo, command, n)
      + LinesOutput(t, echo, [], lines[1..], rest, if command == [] then n else n + 1)
  }

  ghost function Answer(t: Setup, echo: bool, command: seq<char>, n: nat): seq<seq<char>> {
    (if echo then ["\r\n"] else []) + Reply(t, command, n) + ["# "]
  }

  /** The same for a stream that arrives when "typed" is in cmd_buf and n commands were executed. */
  ghost function Transcript(t: Setup, echo: bool, typed: seq<char>, s: seq<char>, n: nat): seq<seq<char>>
    requires |typed| <= CMD_BUF_SIZE
  {
    LinesOutput(t, echo, typed, Split(s).0, Split(s).1, n)
  }

  lemma ReplyIsOutput(t: Setup, line: seq<char>, n: nat)
    requires line != []
    ensures OpBlocks(t, Execute(line), n) == Reply(t, line, n)
  {
    hide Dispatch, Names, ListBlocks, MaxLength;
    forall i: nat ensures Dispatch(Names(t.hooks), line) == Run(i) <==> IsFirst(t.hooks, line, i) {
      FirstByName(t.hooks, line, i);
    }
    if Dispatch(Names(t.hooks), line).Run? {
      assert IsFirst(t.hooks, line, Dispatch(Names(t.hooks), line).hook);
    } else {
      DispatchFindsFirst(Names(t.hooks), line, 0);
      if line in Names(t.hooks) {
        FirstExists(t.hooks, line);
      }
    }
  }

  lemma {:induction false} FirstExists(hooks: seq<Hook>, line: seq<char>)
    requires line in Names(hooks)
    ensures exists k: nat :: IsFirst(hooks, line, k)
  {
    if hooks[0].cmd == line {
      assert IsFirst(hooks, line, 0);
    } else {
      FirstExists(hooks[1..], line);
      var k: nat :| IsFirst(hooks[1..], line, k);
      assert IsFirst(hooks, line, k + 1);
    }
  }

  lemma EchoSplits(echo: bool, typed: seq<char>, c: char, raw: seq<char>)
    requires |typed| <= CMD_BUF_SIZE
    ensures var typed' := Kept(typed + Printables([c]));
            && EchoOf(echo, typed, [c] + raw) == EchoOf(echo, typed, [c]) + EchoOf(echo, typed', raw)
            && Kept(typed + Printables([c] + raw)) == Kept(typed' + Printables(raw))
  {
    hide Printables;
    LinePrefix(typed, c, raw);
    var typed', a, b := Kept(typed + Printables([c])), Printables([c]), Printables(raw);
    var all := Kept(typed + (a + b));
    assert typed + (a + b) == (typed + a) + b;
    assert all == Kept(typed' + b);
    PrintablesCons(c, raw);
    assert all[|typed|..] == typed'[|typed|..] + all[|typed'|..];
    SinglesAppend(typed'[|typed|..], all[|typed'|..]);
  }

  lemma {:induction false} SinglesAppend(a: seq<char>, b: seq<char>)
    ensures Singles(a + b) == Singles(a) + Singles(b)
    decreases |a|
  {
    if a == [] {
      assert a + b == b;
    } else {
      assert (a + b)[1..] == a[1..] + b;
      SinglesAppend(a[1..], b);
    }
  }

  lemma TranscriptOfCharacter(t: Setup, echo: bool, typed: seq<char>, s: seq<char>, n: nat)
    requires |typed| <= CMD_BUF_SIZE && s != [] && s[0] != CR
    ensures Transcript(t, echo, typed, s, n) ==
            EchoOf(echo, typed, [s[0]]) + Transcript(t, echo, Kept(typed + Printables([s[0]])), s[1..], n)
  {
    hide Split, EchoOf, Printables, Answer;
    var (lines, rest) := Split(s[1..]);
    SplitRegular(s);
    if lines == [] {
      EchoSplits(echo, typed, s[0], rest);
    } else {
      EchoSplits(echo, typed, s[0], lines[0]);
    }
  }

  lemma TranscriptOfReturn(t: Setup, echo: bool, typed: seq<char>, s: seq<char>, n: nat)
    requires |typed| < CMD_BUF_SIZE && s != [] && s[0] == CR
    ensures Transcript(t, echo, typed, s, n) ==
            Answer(t, echo, typed, n) + Transcript(t, echo, [], s[1..], if typed == [] then n else n + 1)
  {
    hide Split, Answer;
    SplitReturn(s);
    var (lines, rest) := Split(s[1..]);
    assert ([[]] + lines)[1..] == lines;
    assert typed + Printables([]) == typed && typed[|typed|..] == [];
  }

  /** One character: the output of the operations it adds. */
  lemma OutputOfCharacter(t: Setup, typed: seq<char>, ops: seq<Op>, c: char, echo: bool, n: nat)
    requires |typed| <= CMD_BUF_SIZE && c != CR
    ensures var e := Feed(Editor(typed, ops), c, echo);
            && e.Editor? && e.line == Kept(typed + Printables([c])) && ops <= e.ops
            && Output(t, e.ops[|ops|..], n) == EchoOf(echo, typed, [c])
            && Executed(e.ops[|ops|..]) == []
  {
    FeedRegular(typed, ops, c, echo);
    var e := Feed(Editor(typed, ops), c, echo);
    OutputOfOne(t, Echo(c), n);
    if e.line == typed {
      assert ops + [] == ops && e.ops[|ops|..] == Echoed(echo && Printable(c) && |typed| < CMD_BUF_SIZE, Echo(c));
    } else {
      SinglesOfOne(c);
      assert e.line[|typed|..] == [c];
      assert e.ops[|ops|..] == Echoed(echo, Echo(c));
    }
  }

  lemma SinglesOfOne(c: char)
    ensures Singles([c]) == [[c]]
  {
    assert [c][1..] == [];
  }

  lemma OutputOfReturn(t: Setup, typed: seq<char>, ops: seq<Op>, echo: bool, n: nat)
    requires |typed| < CMD_BUF_SIZE
    ensures var e := Feed(Editor(typed, ops), CR, echo);
            && e.Editor? && e.line == [] && ops <= e.ops
            && Output(t, e.ops[|ops|..], n) == Answer(t, echo, typed, n)
            && Executed(e.ops[|ops|..]) == if typed == [] then [] else [typed]
  {
    hide OpBlocks, Output, Executed, Reply;
    var e := Feed(Editor(typed, ops), CR, echo);
    var a, b := Echoed(echo, Newline), if typed != [] then [Execute(typed)] else [];
    assert e.ops == ops + ((a + b) + [Prompt]);
    ReturnOps(t, echo, typed, n);
  }

  lemma ReturnOps(t: Setup, echo: bool, typed: seq<char>, n: nat)
    ensures var ops := Echoed(echo, Newline) + (if typed != [] then [Execute(typed)] else []) + [Prompt];
            && Output(t, ops, n) == Answer(t, echo, typed, n)
            && Executed(ops) == if typed == [] then [] else [typed]
  {
    hide Reply, Output, Executed;
    var a, b := Echoed(echo, Newline), if typed != [] then [Execute(typed)] else [];
    NoOutput(t, echo, [], [], n);
    ExecutedOne(Newline);
    ExecutedOne(Prompt);
    ExecutedOne(Execute(typed));
    OutputAppend(t, a + b, [Prompt], n);
    OutputAppend(t, a, b, n);
    ExecutedAppend(a + b, [Prompt]);
    ExecutedAppend(a, b);
    OutputOfOne(t, Newline, n);
    OutputOfOne(t, Prompt, n + |Executed(a + b)|);
    if typed != [] {
      OutputOfOne(t, Execute(typed), n);
      ReplyIsOutput(t, typed, n);
    } else {
      NoReply(t, n);
    }
    assert Output(t, a, n) == if echo then ["\r\n"] else [];
    assert Output(t, b, n) == Reply(t, typed, n);
  }

  lemma NoReply(t: Setup, n: nat)
    ensures Reply(t, [], n) == []
  {
  }

  lemma ExecutedOne(op: Op)
    ensures Executed([op]) == (if op.Execute? then [op.line] else []) && Executed([]) == []
  {
    assert [op][1..] == [];
  }

  /** Main result: what the operations of a stream write is the transcript of its lines. */
  lemma {:induction false} OutputIsTranscript(t: Setup, typed: seq<char>, ops: seq<Op>, s: seq<char>, echo: bool, n: nat)
    requires |typed| <= CMD_BUF_SIZE && FeedAll(Editor(typed, ops), s, echo).Editor?
    ensures var e := FeedAll(Editor(typed, ops), s, echo);
            ops <= e.ops && Output(t, e.ops[|ops|..], n) == Transcript(t, echo, typed, s, n)
    decreases |s|
  {
    hide Feed, FeedAll, Transcript, Output, EchoOf, Answer, Executed, Kept;
    if s == [] {
      NoOutput(t, echo, typed, ops, n);
    } else {
      FeedFirst(Editor(typed, ops), s, echo);
      var e := Feed(Editor(typed, ops), s[0], echo);
      if s[0] == CR {
        if |typed| == CMD_BUF_SIZE {
          FullReturn(typed, ops, s, echo);
          assert false;
        } else {
          OutputOfReturn(t, typed, ops, echo, n);
          TranscriptOfReturn(t, echo, typed, s, n);
        }
      } else {
        OutputOfCharacter(t, typed, ops, s[0], echo, n);
        TranscriptOfCharacter(t, echo, typed, s, n);
        KeptFits(typed + Printables([s[0]]));
      }
      OutputIsTranscript(t, e.line, e.ops, s[1..], echo, n + |Executed(e.ops[|ops|..])|);
      var last := FeedAll(e, s[1..], echo);
      assert e == Editor(e.line, e.ops);
      assert last.ops[|ops|..] == e.ops[|ops|..] + last.ops[|e.ops|..];
      OutputAppend(t, e.ops[|ops|..], last.ops[|e.ops|..], n);
    }
  }

  lemma KeptFits(line: seq<char>)
    ensures |Kept(line)| <= CMD_BUF_SIZE
  {
  }

  lemma FullReturn(typed: seq<char>, ops: seq<Op>, s: seq<char>, echo: bool)
    requires |typed| == CMD_BUF_SIZE && s != [] && s[0] == CR
    ensures FeedAll(Editor(typed, ops), s, echo).Overrun?
  {
    OverrunStays(s[1..], echo);
  }

  lemma NoOutput(t: Setup, echo: bool, typed: seq<char>, ops: seq<Op>, n: nat)
    requires |typed| <= CMD_BUF_SIZE
    ensures FeedAll(Editor(typed, ops), [], echo) == Editor(typed, ops) && ops[|ops|..] == []
    ensures Transcript(t, echo, typed, [], n) == [] == Output(t, [], n)
  {
    assert typed + [] == typed;
  }

  /** The flush at the end of a call writes nothing. */
  lemma CallIsTranscript(t: Setup, typed: seq<char>, ops: seq<Op>, s: seq<char>, echo: bool, n: nat)
    requires |typed| <= CMD_BUF_SIZE && ProcessCall(Editor(typed, ops), s, echo).Editor?
    ensures var e := ProcessCall(Editor(typed, ops), s, echo);
            ops <= e.ops && Output(t, e.ops[|ops|..], n) == Transcript(t, echo, typed, s, n)
  {
    hide FeedAll, Transcript, Executed, Output, OpBlocks;
    OutputIsTranscript(t, typed, ops, s, echo, n);
    var e := FeedAll(Editor(typed, ops), s, echo);
    if s != [] {
      var done := e.ops[|ops|..];
      OutputAppend(t, done, [FlushTx], n);
      FlushWritesNothing(t, n + |Executed(done)|);
      var written := Output(t, done, n);
      assert (e.ops + [FlushTx])[|ops|..] == done + [FlushTx] && written + [] == written;
    }
  }

  lemma FlushWritesNothing(t: Setup, n: nat)
    ensures Output(t, [FlushTx], n) == []
  {
    OutputOfOne(t, FlushTx, n);
  }

  // ---------- what that looks like ----------

  /** Typing without a CR shows the printable characters, as long as they find room in cmd_buf. */
  lemma TypingShows(t: Setup, echo: bool, typed: seq<char>, s: seq<char>, n: nat)
    requires CR !in s && |typed| + |Printables(s)| <= CMD_BUF_SIZE
    ensures Transcript(t, echo, typed, s, n) == if echo then Singles(Printables(s)) else []
    ensures Concat(Transcript(t, echo, typed, s, n)) == if echo then Printables(s) else []
  {
    SplitOfRest(s);
    assert (typed + Printables(s))[|typed|..] == Printables(s);
    ConcatSingles(Printables(s));
  }

  lemma {:induction false} SplitOfRest(s: seq<char>)
    requires CR !in s
    ensures Split(s) == ([], s)
  {
    if s != [] {
      assert s == [s[0]] + s[1..];
      SplitOfRest(s[1..]);
    }
  }

  lemma {:induction false} ConcatSingles(s: seq<char>)
    ensures Concat(Singles(s)) == s
  {
    if s != [] {
      ConcatSingles(s[1..]);
      ConcatAppend([[s[0]]], Singles(s[1..]));
      assert [[s[0]]][1..] == [] && s == [s[0]] + s[1..];
    }
  }

  /** A CR on a line: an empty one gets a new prompt, a command of a hook that hook's output, and
      another one the message. */
  lemma ReturnShows(t: Setup, echo: bool, typed: seq<char>, n: nat)
    requires |typed| < CMD_BUF_SIZE
    ensures var newline: seq<seq<char>> := if echo then ["\r\n"] else [];
            var endl := if t.crlf then ["\r", "\n"] else ["\n"];
            var message := [typed, ": command not found (type \"help\" for a list of available commands)"];
            var shown := Transcript(t, echo, typed, [CR], n);
            && (typed == [] ==> shown == newline + ["# "])
            && (typed != [] ==> forall k: nat :: IsFirst(t.hooks, typed, k) ==> shown == newline + t.replies(k, n) + ["# "])
            && (typed !in {[], "help"} && (forall h :: h in t.hooks ==> h.cmd != typed) ==>
                  shown == newline + (message + endl) + ["# "])
            && (typed == "help" && (forall h :: h in t.hooks ==> h.cmd != typed) ==>
                  shown == newline + (["List of commands:"] + endl + ListBlocks(t.hooks, MaxLength(t.hooks), t.crlf)) + ["# "])
  {
    hide ListBlocks, MaxLength, Transcript, Reply;
    TranscriptOfReturn(t, echo, typed, [CR], n);
    NoOutput(t, echo, [], [], if typed == [] then n else n + 1);
    assert [CR][1..] == [];
    var newline: seq<seq<char>> := if echo then ["\r\n"] else [];
    assert Transcript(t, echo, typed, [CR], n) == newline + Reply(t, typed, n) + ["# "];
    assert newline + [] == newline;
    ReplyShows(t, typed, n);
  }

  lemma ReplyShows(t: Setup, typed: seq<char>, n: nat)
    ensures typed == [] ==> Reply(t, typed, n) == []
    ensures typed != [] ==> forall k: nat :: IsFirst(t.hooks, typed, k) ==> Reply(t, typed, n) == t.replies(k, n)
    ensures typed != [] && (forall h :: h in t.hooks ==> h.cmd != typed) ==>
              var endl := if t.crlf then ["\r", "\n"] else ["\n"];
              Reply(t, typed, n) ==
                if typed == "help" then ["List of commands:"] + endl + ListBlocks(t.hooks, MaxLength(t.hooks), t.crlf)
                else [typed, ": command not found (type \"help\" for a list of available commands)"] + endl
  {
    hide ListBlocks, MaxLength;
    forall k: nat, j: nat | IsFirst(t.hooks, typed, k) && IsFirst(t.hooks, typed, j) ensures k == j {
    }
  }

  /** The list of commands has a line for each hook, in order: its name, and its description in a
      column that leaves three blanks behind the longest name. */
  lemma {:induction false} HelpShows(hooks: seq<Hook>, width: nat, crlf: bool, k: nat)
    requires (forall h :: h in hooks ==> |h.cmd| <= width) && k < |hooks|
    ensures forall h :: h in hooks[..k] + hooks[k + 1..] ==> h in hooks
    ensures var line := Concat(ListBlocks(hooks[k..k + 1], width, crlf));
            && Concat(ListBlocks(hooks, width, crlf)) ==
               Concat(ListBlocks(hooks[..k], width, crlf)) + line + Concat(ListBlocks(hooks[k + 1..], width, crlf))
            && "   " + hooks[k].cmd <= line && |line| >= width + 6
            && line[width + 6..] == hooks[k].desc + (if crlf then "\r\n" else "\n")
            && forall i :: 3 + |hooks[k].cmd| <= i < width + 6 ==> line[i] == ' '
  {
    hide ListBlocks;
    assert hooks == hooks[..k] + hooks[k..k + 1] + hooks[k + 1..];
    ListAppend(hooks[..k] + hooks[k..k + 1], hooks[k + 1..], width, crlf);
    ListAppend(hooks[..k], hooks[k..k + 1], width, crlf);
    assert hooks[k..k + 1] == [hooks[k]];
    HelpLine(hooks[k], width, crlf);
  }

  lemma {:induction false} ListAppend(a: seq<Hook>, b: seq<Hook>, width: nat, crlf: bool)
    requires forall h :: h in a + b ==> |h.cmd| <= width
    ensures (forall h :: h in a ==> h in a + b) && (forall h :: h in b ==> h in a + b)
    ensures Concat(ListBlocks(a + b, width, crlf)) == Concat(ListBlocks(a, width, crlf)) + Concat(ListBlocks(b, width, crlf))
    decreases |a|
  {
    hide ListBlocks, Concat;
    assert forall h :: h in a ==> h in a + b;
    assert forall h :: h in b ==> h in a + b;
    if a == [] {
      assert a + b == b;
      NothingListed(width, crlf);
    } else {
      assert (a + b)[1..] == a[1..] + b;
      ListAppend(a[1..], b, width, crlf);
      ListCons(a, width, crlf);
      ListCons(a + b, width, crlf);
    }
  }

  lemma NothingListed(width: nat, crlf: bool)
    ensures Concat(ListBlocks([], width, crlf)) == []
  {
  }

  lemma ListCons(hooks: seq<Hook>, width: nat, crlf: bool)
    requires hooks != [] && forall h :: h in hooks ==> |h.cmd| <= width
    ensures |hooks[0].cmd| <= width
    ensures Concat(ListBlocks(hooks, width, crlf)) ==
            Concat(ListBlocks([hooks[0]], width, crlf)) + Concat(ListBlocks(hooks[1..], width, crlf))
  {
    var h := hooks[0];
    var line := ["   ", h.cmd] + Spaces(width - |h.cmd| + 3) + [h.desc] + Endl(crlf);
    assert [h][1..] == [] && line + [] == line;
    ConcatAppend(line, ListBlocks(hooks[1..], width, crlf));
  }

  lemma {:induction false} ConcatAppend(a: seq<seq<char>>, b: seq<seq<char>>)
    ensures Concat(a + b) == Concat(a) + Concat(b)
    decreases |a|
  {
    if a == [] {
      assert a + b == b;
    } else {
      assert (a + b)[1..] == a[1..] + b;
      ConcatAppend(a[1..], b);
    }
  }

  lemma HelpLine(h: Hook, width: nat, crlf: bool)
    requires |h.cmd| <= width
    ensures var line := Concat(ListBlocks([h], width, crlf));
            && "   " + h.cmd <= line && |line| >= width + 6
            && line[width + 6..] == h.desc + (if crlf then "\r\n" else "\n")
            && forall i :: 3 + |h.cmd| <= i < width + 6 ==> line[i] == ' '
  {
    var pad, eol := width - |h.cmd| + 3, if crlf then "\r\n" else "\n";
    var start, blanks, tail := ["   ", h.cmd], Spaces(pad), [h.desc] + Endl(crlf);
    assert [h][1..] == [];
    assert ListBlocks([h], width, crlf) == start + blanks + tail;
    ConcatAppend(start + blanks, tail);
    ConcatAppend(start, blanks);
    ConcatSpaces(pad);
    ConcatPair("   ", h.cmd);
    ConcatEndl(h.desc, crlf);
  }

  lemma ConcatPair(a: seq<char>, b: seq<char>)
    ensures Concat([a, b]) == a + b
  {
    assert [a, b][1..] == [b] && [b][1..] == [] && b + [] == b;
    assert Concat([b]) == b;
  }

  lemma ConcatEndl(desc: seq<char>, crlf: bool)
    ensures Concat([desc] + Endl(crlf)) == desc + (if crlf then "\r\n" else "\n")
  {
    ConcatAppend([desc], Endl(crlf));
    ConcatPair(['\r'], ['\n']);
    assert [desc][1..] == [] && [['\n']][1..] == [];
  }

  lemma {:induction false} ConcatSpaces(n: nat)
    ensures |Concat(Spaces(n))| == n && forall i :: 0 <= i < n ==> Concat(Spaces(n))[i] == ' '
  {
    if n > 0 {
      ConcatSpaces(n - 1);
      assert Spaces(n)[1..] == Spaces(n - 1);
    }
  }

  /** With room for all blocks, all of them are accepted. */
  lemma {:induction false} AcceptedWithRoom(q: seq<char>, blocks: seq<seq<char>>, capacity: nat)
    requires |q| + |Concat(blocks)| <= capacity
    ensures Accepted(q, blocks, capacity) == Concat(blocks)
    decreases |blocks|
  {
    if blocks != [] {
      AcceptedWithRoom(q + blocks[0], blocks[1..], capacity);
    }
  }

  // ---------- the class ----------

  class Terminal {
    const out: FifoStream
    const echo: bool
    const setup: Setup
    const cmdBuf: array<char>
    var cmdIndex: nat
    var ops: seq<Op>

    ghost predicate Valid()
      reads this, cmdBuf
    {
      && cmdBuf.Length == CMD_BUF_SIZE && cmdIndex <= CMD_BUF_SIZE
      && forall k :: 0 <= k < cmdIndex ==> cmdBuf[k] != '\0'
    }

    /** The stream is valid, and its buffers are not cmd_buf. */
    ghost predicate Connected()
      reads this, out.dev, out.dev.tx, out.dev.tx.buf, out.dev.rx, out.dev.rx.buf
    {
      out.dev.Valid() && setup.crlf == out.dev.crlf && cmdBuf != out.dev.tx.buf && cmdBuf != out.dev.rx.buf
    }

    ghost function State(): Editor
      reads this, cmdBuf
      requires Valid()
    {
      Editor(cmdBuf[..cmdIndex], ops)
    }

    ghost function Now(): Moment
      reads this`ops, out.dev`accepted, out.dev.tx, out.dev.tx.buf
      requires out.dev.tx.Valid()
    {
      Moment(out.dev.tx.Contents(), out.dev.accepted, ops)
    }

    /** What was done since a moment was offered to the tx queue, in order. */
    ghost predicate Since(a: Moment)
      reads this`ops, out.dev`accepted, out.dev.tx, out.dev.tx.buf
      requires out.dev.tx.Valid()
    {
      Produced(setup, out.dev.tx.size - 1, a, Now())
    }

    constructor (out: FifoStream, echo: bool, setup: Setup)
      ensures Valid() && this.out == out && this.echo == echo && this.setup == setup && fresh(cmdBuf)
      ensures State() == Editor([], [])
    {
      this.out, this.echo, this.setup := out, echo, setup;
      cmdBuf := new char[CMD_BUF_SIZE];
      cmdIndex, ops := 0, [];
    }

    /** Pass some blocks to the stream; put() of a character and puts() of a string are write() of it. */
    method Emit(blocks: seq<seq<char>>)
      requires Connected()
      modifies out.dev`accepted, out.dev.tx`writeIndex, out.dev.tx.buf
      ensures out.dev.Valid()
      ensures Wrote(old(out.dev.tx.Contents()), old(out.dev.accepted), blocks, out.dev.tx.size - 1,
                    out.dev.tx.Contents(), out.dev.accepted)
      decreases |blocks|
    {
      hide RingBuffer.Contents;
      ghost var capacity, q, acc := out.dev.tx.size - 1, out.dev.tx.Contents(), out.dev.accepted;
      if blocks == [] {
        WroteNothing(q, acc, capacity);
      } else {
        out.Write(blocks[0], |blocks[0]|);
        assert blocks[0][..|blocks[0]|] == blocks[0] && [blocks[0]] + blocks[1..] == blocks;
        ghost var q1, acc1 := out.dev.tx.Contents(), out.dev.accepted;
        Emit(blocks[1..]);
        WroteThen(q, acc, [blocks[0]], q1, acc1, blocks[1..], out.dev.tx.Contents(), out.dev.accepted, capacity);
      }
    }

    /** One operation on the stream, or one command. */
    method Do(op: Op, ghost start: Moment)
      requires Connected() && Since(start)
      modifies this`ops, out.dev`accepted, out.dev`txeie, out.dev.tx`writeIndex, out.dev.tx.buf
      ensures Connected() && ops == old(ops) + [op] && Since(start)
      ensures out.dev.txeie == (old(out.dev.txeie) || Flushes(setup, op))
    {
      hide RingBuffer.Contents, OpBlocks, Executed, Wrote, Produced;
      ghost var before := Now();
      Emit(OpBlocks(setup, op, |Executed(ops)|));
      ops := ops + [op];
      ProducedOne(setup, out.dev.tx.size - 1, start, before, op, Now());
      if Flushes(setup, op) {
        out.dev.Flush();
      }
    }

    /** Terminate cmd_buf. The result is the C string that starts there. */
    method Terminate() returns (command: seq<char>)
      requires Valid() && cmdIndex < CMD_BUF_SIZE
      modifies cmdBuf
      ensures Valid() && cmdBuf[..cmdIndex] == old(cmdBuf[..cmdIndex])
      ensures command == cmdBuf[..cmdIndex]
    {
      cmdBuf[cmdIndex] := '\0';
      CStringEndsAtNul(cmdBuf[..], cmdIndex);
      command := CString(cmdBuf[..]);
    }

    /** A carriage return. The result is false when the terminator falls outside of cmd_buf. */
    method Return(ghost start: Moment) returns (ok: bool)
      requires Valid() && Connected() && Since(start)
      modifies this, cmdBuf, out.dev`accepted, out.dev`txeie, out.dev.tx`writeIndex, out.dev.tx.buf
      ensures Valid() && Connected() && Since(start)
      ensures ok <==> Feed(old(State()), CR, echo).Editor?
      ensures ok ==> State() == Feed(old(State()), CR, echo)
    {
      hide RingBuffer.Contents, Produced, Flushes, UsartStream.Valid;
      if echo {
        Do(Newline, start);
      }
      if cmdIndex >= CMD_BUF_SIZE {
        return false;
      }
      var command := Terminate();
      if cmdIndex > 0 {
        Do(Execute(command), start);
      }
      Do(Prompt, start);
      cmdIndex := 0;
      return true;
    }

    /** The loop body of process_input(), for a character just popped. */
    method Character(c: char, ghost start: Moment) returns (ok: bool)
      requires Valid() && Connected() && Since(start)
      modifies this, cmdBuf, out.dev`accepted, out.dev`txeie, out.dev.tx`writeIndex, out.dev.tx.buf
      ensures Valid() && Connected() && Since(start)
      ensures ok <==> Feed(old(State()), c, echo).Editor?
      ensures ok ==> State() == Feed(old(State()), c, echo)
    {
      hide RingBuffer.Contents, Produced, Flushes;
      if c == CR {
        ok := Return(start);
        return;
      } else if ' ' <= c <= '~' && cmdIndex < CMD_BUF_SIZE {
        if echo {
          Do(Echo(c), start);
        }
        cmdBuf[cmdIndex] := c;
        cmdIndex := cmdIndex + 1;
      }
      return true;
    }

    /** process_input(): empties the rx queue. The result is false when the line terminator would
        be stored outside of cmd_buf, from where on the behaviour is undefined. */
    method ProcessInput() returns (ok: bool)
      requires Valid() && Connected()
      modifies this, cmdBuf, out.dev, out.dev.rx, out.dev.tx`writeIndex, out.dev.tx.buf
      ensures out.dev.Valid()
      ensures ok <==> ProcessCall(old(State()), old(out.dev.rx.Contents()), echo).Editor?
      ensures ok ==>
                && Valid() && Connected()
                && State() == ProcessCall(old(State()), old(out.dev.rx.Contents()), echo)
                && Since(old(Now()))
                && out.dev.sent == old(out.dev.sent) && out.dev.received == old(out.dev.received)
                && out.dev.rx.Contents() == []
                && out.dev.consumed == old(out.dev.consumed) + old(out.dev.rx.Contents())
                && (if old(out.dev.rx.Contents()) != [] then out.dev.txeie else out.dev.txeie == old(out.dev.txeie))
      ensures ok ==>
                var shown := Transcript(setup, echo, old(State()).line, old(out.dev.rx.Contents()), |Executed(old(ops))|);
                && out.dev.accepted == old(out.dev.accepted) + Accepted(old(out.dev.tx.Contents()), shown, out.dev.tx.size - 1)
                && (|old(out.dev.tx.Contents())| + |Concat(shown)| <= out.dev.tx.size - 1 ==>
                      out.dev.accepted == old(out.dev.accepted) + Concat(shown))
    {
      hide RingBuffer.Contents, Produced, Feed, FeedAll, Transcript, Accepted, Executed, Concat;
      ghost var input, start, editor := out.dev.rx.Contents(), Now(), State();
      ProducedNothing(setup, out.dev.tx.size - 1, start);
      var flushTx := false;
      var more, c := out.dev.Receive();
      ghost var rest := input;
      while more
        invariant Valid() && Connected() && Since(start)
        invariant out.dev.received == old(out.dev.received) && out.dev.sent == old(out.dev.sent)
        invariant rest == if more then [c] + out.dev.rx.Contents() else []
        invariant !more ==> out.dev.rx.Contents() == []
        invariant flushTx <==> rest != input
        invariant !flushTx ==> out.dev.txeie == old(out.dev.txeie)
        invariant FeedAll(editor, input, echo) == FeedAll(State(), rest, echo)
        decreases |rest|
      {
        flushTx := true;
        FeedFirst(State(), rest, echo);
        assert rest[0] == c && rest[1..] == out.dev.rx.Contents();
        ok := Character(c, start);
        if !ok {
          OverrunStays(rest[1..], echo);
          return;
        }
        rest := rest[1..];
        more, c := out.dev.Receive();
      }
      FeedNothing(State(), echo);
      if flushTx {
        Do(FlushTx, start);
      }
      CallWrites(setup, out.dev.tx.size - 1, start, Now(), editor, input, echo);
      return true;
    }
  }

  /** What is accepted of the output of a call. */
  lemma CallWrites(t: Setup, capacity: nat, a: Moment, b: Moment, e: Editor, s: seq<char>, echo: bool)
    requires Produced(t, capacity, a, b) && e.Editor? && e.ops == a.ops && |e.line| <= CMD_BUF_SIZE
    requires ProcessCall(e, s, echo).Editor? && ProcessCall(e, s, echo).ops == b.ops
    ensures var shown := Transcript(t, echo, e.line, s, |Executed(a.ops)|);
            && b.accepted == a.accepted + Accepted(a.q, shown, capacity)
            && (|a.q| + |Concat(shown)| <= capacity ==> b.accepted == a.accepted + Concat(shown))
  {
    hide ProcessCall, Transcript, Executed, Accepted, Output;
    assert e == Editor(e.line, e.ops);
    var n := |Executed(a.ops)|;
    CallIsTranscript(t, e.line, e.ops, s, echo, n);
    var shown := Transcript(t, echo, e.line, s, n);
    if |a.q| + |Concat(shown)| <= capacity {
      AcceptedWithRoom(a.q, shown, capacity);
    }
  }

  lemma {:induction false} CStringEndsAtNul(b: seq<char>, n: nat)
    requires n < |b| && b[n] == '\0' && forall k :: 0 <= k < n ==> b[k] != '\0'
    ensures CString(b) == b[..n]
  {
    assert b[n] in b;
    if n > 0 {
      assert b[1..][n - 1] == '\0';
      CStringEndsAtNul(b[1..], n - 1);
      assert b[..n] == [b[0]] + b[1..][..n - 1];
    }
  }
}
