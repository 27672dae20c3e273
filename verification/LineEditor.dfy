/** The line editor of the terminal: process_input() without its output. */
module LineEditors {
  const CMD_BUF_SIZE: nat := 80
  const CR: char := '\r'

  /** What the terminal does, in order: operations on its output stream and commands executed. */
  datatype Op = Newline | Echo(c: char) | Execute(line: seq<char>) | Prompt | FlushTx

  predicate Printable(c: char) {
    ' ' <= c <= '~'
  }

  lemma CharacterCodes(c: char)
    ensures Printable(c) <==> 32 <= c as int <= 126
    ensures c == CR <==> c as int == 13
  {
  }

  /** The editor: the line being typed and what was done so far. Overrun stands for the undefined
      behaviour that starts when the line terminator is stored behind the end of cmd_buf. */
  datatype Editor = Editor(line: seq<char>, ops: seq<Op>) | Overrun

  function Echoed(echo: bool, op: Op): seq<Op> {
    if echo then [op] else []
  }

  /** One pass of the loop of process_input(). */
  function Feed(e: Editor, c: char, echo: bool): Editor {
    if e.Overrun? then Overrun
    else if c == CR then
      if |e.line| >= CMD_BUF_SIZE then Overrun
      else Editor([], e.ops + Echoed(echo, Newline) + (if e.line != [] then [Execute(e.line)] else []) + [Prompt])
    else if Printable(c) && |e.line| < CMD_BUF_SIZE then
      Editor(e.line + [c], e.ops + Echoed(echo, Echo(c)))
    else e
  }

  function FeedAll(e: Editor, s: seq<char>, echo: bool): Editor
    decreases |s|
  {
    if s == [] then e else FeedAll(Feed(e, s[0], echo), s[1..], echo)
  }

  /** Splitting the input over several calls of process_input() changes nothing. */
  lemma {:induction false} FeedSplit(e: Editor, s: seq<char>, t: seq<char>, echo: bool)
    ensures FeedAll(e, s + t, echo) == FeedAll(FeedAll(e, s, echo), t, echo)
    decreases |s|
  {
    if s == [] {
      assert s + t == t;
    } else {
      assert (s + t)[1..] == s[1..] + t;
      FeedSplit(Feed(e, s[0], echo), s[1..], t, echo);
    }
  }

  // ---------- the independent reading of an input stream ----------

  /** The CR-terminated lines of a stream, and the unterminated rest. */
  function Split(s: seq<char>): (seq<seq<char>>, seq<char>) {
    if s == [] then ([], [])
    else
      var (lines, rest) := Split(s[1..]);
      if s[0] == CR then ([[]] + lines, rest)
      else if lines == [] then ([], [s[0]] + rest)
      else ([[s[0]] + lines[0]] + lines[1..], rest)
  }

  function Join(lines: seq<seq<char>>, rest: seq<char>): seq<char> {
    if lines == [] then rest else lines[0] + [CR] + Join(lines[1..], rest)
  }

  /** Split is the inverse of joining CR-free lines. */
  lemma {:induction false} SplitJoin(s: seq<char>)
    ensures var (lines, rest) := Split(s);
            Join(lines, rest) == s && CR !in rest && forall k :: 0 <= k < |lines| ==> CR !in lines[k]
  {
    if s != [] {
      SplitJoin(s[1..]);
      var (lines, rest) := Split(s[1..]);
      hide Split, Join;
      assert s == [s[0]] + s[1..];
      if s[0] == CR {
        SplitReturn(s);
        JoinFirst([[]] + lines, rest);
        assert ([[]] + lines)[1..] == lines && [] + [CR] == [CR];
      } else {
        SplitRegular(s);
        if lines == [] {
          JoinNone(rest);
          JoinNone(Split(s).1);
        } else {
          JoinFirst(lines, rest);
          JoinFirst(Split(s).0, rest);
          Prepend(s[0], lines[0], Join(lines[1..], rest));
        }
      }
    }
  }

  lemma SplitReturn(s: seq<char>)
    requires s != [] && s[0] == CR
    ensures Split(s) == ([[]] + Split(s[1..]).0, Split(s[1..]).1)
  {
  }

  lemma JoinNone(rest: seq<char>)
    ensures Join([], rest) == rest
  {
  }

  lemma JoinFirst(lines: seq<seq<char>>, rest: seq<char>)
    requires lines != []
    ensures Join(lines, rest) == lines[0] + [CR] + Join(lines[1..], rest)
  {
  }

  lemma Prepend(c: char, line: seq<char>, others: seq<char>)
    ensures ([c] + line) + [CR] + others == [c] + (line + [CR] + others)
  {
  }

  function Printables(s: seq<char>): (p: seq<char>)
    ensures forall c :: c in p ==> Printable(c)
  {
    if s == [] then [] else (if Printable(s[0]) then [s[0]] else []) + Printables(s[1..])
  }

  /** The commands that a stream asks for: its non-empty lines, without non-printables. */
  function Commands(lines: seq<seq<char>>): seq<seq<char>> {
    if lines == [] then []
    else (if Printables(lines[0]) != [] then [Printables(lines[0])] else []) + Commands(lines[1..])
  }

  predicate AllFit(lines: seq<seq<char>>) {
    forall k :: 0 <= k < |lines| ==> |Printables(lines[k])| < CMD_BUF_SIZE
  }

  function Executed(ops: seq<Op>): seq<seq<char>> {
    if ops == [] then []
    else (if ops[0].Execute? then [ops[0].line] else []) + Executed(ops[1..])
  }

  lemma {:induction false} ExecutedAppend(a: seq<Op>, b: seq<Op>)
    ensures Executed(a + b) == Executed(a) + Executed(b)
    decreases |a|
  {
    if a == [] {
      assert a + b == b;
    } else {
      assert (a + b)[1..] == a[1..] + b;
      ExecutedAppend(a[1..], b);
    }
  }

  /** What is kept of a line that is being typed. */
  function Kept(line: seq<char>): seq<char> {
    if |line| <= CMD_BUF_SIZE then line else line[..CMD_BUF_SIZE]
  }

  lemma FeedRegular(line: seq<char>, ops: seq<Op>, c: char, echo: bool)
    requires c != CR
    ensures var e := Feed(Editor(Kept(line), ops), c, echo);
            && e.Editor?
            && e.line == Kept(line + Printables([c]))
            && Executed(e.ops) == Executed(ops)
  {
    assert [c][1..] == [];
    ExecutedAppend(ops, Echoed(echo, Echo(c)));
    assert ops + [] == ops;
  }

  lemma FeedReturn(line: seq<char>, ops: seq<Op>, echo: bool)
    ensures var e := Feed(Editor(Kept(line), ops), CR, echo);
            && (e.Overrun? <==> |line| >= CMD_BUF_SIZE)
            && (e.Editor? ==> e.line == [] && Executed(e.ops) == Executed(ops) + (if line != [] then [line] else []))
  {
    if |line| < CMD_BUF_SIZE {
      ReturnExecutes(line, ops, echo);
    }
  }

  lemma ReturnExecutes(line: seq<char>, ops: seq<Op>, echo: bool)
    ensures var command := if line != [] then [Execute(line)] else [];
            Executed(ops + Echoed(echo, Newline) + command + [Prompt]) == Executed(ops) + (if line != [] then [line] else [])
  {
    var a, b := ops + Echoed(echo, Newline), if line != [] then [Execute(line)] else [];
    ExecutedAppend(a + b, [Prompt]);
    ExecutedAppend(a, b);
    ExecutedAppend(ops, Echoed(echo, Newline));
  }

  lemma {:induction false} OverrunStays(s: seq<char>, echo: bool)
    ensures FeedAll(Overrun, s, echo) == Overrun
  {
    if s != [] {
      OverrunStays(s[1..], echo);
    }
  }

  lemma PrintablesCons(c: char, s: seq<char>)
    ensures Printables([c] + s) == Printables([c]) + Printables(s)
  {
    assert ([c] + s)[1..] == s && [c][1..] == [];
  }

  /** The editor in the middle of a line, against the lines still to come. */
  ghost predicate FeedMatches(line: seq<char>, ops: seq<Op>, s: seq<char>, echo: bool) {
    var (lines, rest) := Split(s);
    var e := FeedAll(Editor(Kept(line), ops), s, echo);
    if lines == [] then
      e.Editor? && e.line == Kept(line + Printables(rest)) && Executed(e.ops) == Executed(ops)
    else
      var first := line + Printables(lines[0]);
      && (e.Overrun? <==> |first| >= CMD_BUF_SIZE || !AllFit(lines[1..]))
      && (e.Editor? ==>
            && e.line == Kept(Printables(rest))
            && Executed(e.ops) == Executed(ops) + (if first != [] then [first] else []) + Commands(lines[1..]))
  }

  lemma {:induction false} FeedAllMatches(line: seq<char>, ops: seq<Op>, s: seq<char>, echo: bool)
    ensures FeedMatches(line, ops, s, echo)
    decreases |s|
  {
    if s == [] {
      assert line + [] == line;
    } else if s[0] == CR {
      FeedReturn(line, ops, echo);
      ReturnMatches(line, ops, s, echo);
    } else {
      FeedRegular(line, ops, s[0], echo);
      RegularMatches(line, ops, s, echo);
    }
  }

  lemma RegularMatches(line: seq<char>, ops: seq<Op>, s: seq<char>, echo: bool)
    requires s != [] && s[0] != CR
    ensures FeedMatches(line, ops, s, echo)
    decreases |s|, 0
  {
    hide Feed, FeedAll, Split, Commands, Kept, FeedMatches;
    var c := s[0];
    FeedRegular(line, ops, c, echo);
    var e := Feed(Editor(Kept(line), ops), c, echo);
    FeedAllMatches(line + Printables([c]), e.ops, s[1..], echo);
    FirstCharacterMatches(line, ops, e, s, echo);
  }

  lemma FirstCharacterMatches(line: seq<char>, ops: seq<Op>, e: Editor, s: seq<char>, echo: bool)
    requires s != [] && s[0] != CR && e == Feed(Editor(Kept(line), ops), s[0], echo) && e.Editor?
    requires e.line == Kept(line + Printables([s[0]])) && Executed(e.ops) == Executed(ops)
    requires FeedMatches(line + Printables([s[0]]), e.ops, s[1..], echo)
    ensures FeedMatches(line, ops, s, echo)
  {
    hide Feed, FeedAll, Split, Commands, Kept, Executed, Printables;
    var c := s[0];
    var (lines, rest) := Split(s[1..]);
    SplitRegular(s);
    FeedFirst(Editor(Kept(line), ops), s, echo);
    assert e == Editor(Kept(line + Printables([c])), e.ops);
    if lines == [] {
      LinePrefix(line, c, rest);
    } else {
      LinePrefix(line, c, lines[0]);
    }
  }

  lemma SplitRegular(s: seq<char>)
    requires s != [] && s[0] != CR
    ensures var (lines, rest) := Split(s[1..]);
            if lines == [] then Split(s) == ([], [s[0]] + rest)
            else Split(s).0 != [] && Split(s).0[0] == [s[0]] + lines[0] && Split(s).0[1..] == lines[1..] && Split(s).1 == rest
  {
  }

  lemma FeedFirst(e: Editor, s: seq<char>, echo: bool)
    requires s != []
    ensures FeedAll(e, s, echo) == FeedAll(Feed(e, s[0], echo), s[1..], echo)
  {
    hide Feed;
  }

  lemma LinePrefix(line: seq<char>, c: char, s: seq<char>)
    ensures line + Printables([c] + s) == (line + Printables([c])) + Printables(s)
  {
    PrintablesCons(c, s);
  }

  lemma ReturnMatches(line: seq<char>, ops: seq<Op>, s: seq<char>, echo: bool)
    requires s != [] && s[0] == CR
    ensures FeedMatches(line, ops, s, echo)
    decreases |s|, 0
  {
    FeedReturn(line, ops, echo);
    var e := Feed(Editor(Kept(line), ops), CR, echo);
    var (lines, rest) := Split(s[1..]);
    var last := FeedAll(e, s[1..], echo);
    assert line + Printables([]) == line;
    if e.Overrun? {
      OverrunStays(s[1..], echo);
    } else {
      FeedAllMatches([], e.ops, s[1..], echo);
      FreshLineMatches(e.ops, s[1..], echo);
    }
    assert ([[]] + lines)[1..] == lines;
  }

  /** FeedMatches for a line that starts empty. */
  lemma FreshLineMatches(ops: seq<Op>, s: seq<char>, echo: bool)
    requires FeedMatches([], ops, s, echo)
    ensures var (lines, rest) := Split(s);
            var e := FeedAll(Editor([], ops), s, echo);
            && (e.Editor? <==> AllFit(lines))
            && (e.Editor? ==> Executed(e.ops) == Executed(ops) + Commands(lines) && e.line == Kept(Printables(rest)))
  {
    var (lines, rest) := Split(s);
    assert [] + Printables(rest) == Printables(rest);
    if lines == [] {
      assert Executed(ops) + Commands(lines) == Executed(ops);
    } else {
      var p := Printables(lines[0]);
      assert [] + p == p;
      var head, tail := if p != [] then [p] else [], Commands(lines[1..]);
      assert (Executed(ops) + head) + tail == Executed(ops) + (head + tail);
      AllFitCons(lines);
    }
  }

  lemma AllFitCons(lines: seq<seq<char>>)
    requires lines != []
    ensures AllFit(lines) <==> |Printables(lines[0])| < CMD_BUF_SIZE && AllFit(lines[1..])
  {
    assert lines == [lines[0]] + lines[1..];
  }

  /** From an empty line, a stream is edited without overrunning cmd_buf exactly when
      each of its terminated lines has fewer than 80 printable characters; the commands executed
      are then exactly the non-empty lines, in order. */
  lemma EditorExecutesLines(s: seq<char>, echo: bool)
    ensures var (lines, rest) := Split(s);
            var e := FeedAll(Editor([], []), s, echo);
            && (e.Editor? <==> AllFit(lines))
            && (e.Editor? ==> Executed(e.ops) == Commands(lines) && e.line == Kept(Printables(rest)))
  {
    FeedAllMatches([], [], s, echo);
    FreshLineMatches([], s, echo);
    assert Executed([]) + Commands(Split(s).0) == Commands(Split(s).0);
  }

  // ---------- several calls ----------

  /** One call of process_input() on the characters then in the rx queue. */
  function ProcessCall(e: Editor, s: seq<char>, echo: bool): Editor {
    var e' := FeedAll(e, s, echo);
    if e'.Editor? && s != [] then e'.(ops := e'.ops + [FlushTx]) else e'
  }

  function ProcessCalls(e: Editor, chunks: seq<seq<char>>, echo: bool): Editor
    decreases |chunks|
  {
    if chunks == [] then e else ProcessCalls(ProcessCall(e, chunks[0], echo), chunks[1..], echo)
  }

  function Concat(chunks: seq<seq<char>>): seq<char> {
    if chunks == [] then [] else chunks[0] + Concat(chunks[1..])
  }

  /** Two editors that differ at most in what they did to the output stream. */
  predicate SameLine(a: Editor, b: Editor) {
    if a.Overrun? then b.Overrun?
    else b.Editor? && a.line == b.line && Executed(a.ops) == Executed(b.ops)
  }

  lemma FeedKeepsSameLine(a: Editor, b: Editor, c: char, echo: bool)
    requires SameLine(a, b)
    ensures SameLine(Feed(a, c, echo), Feed(b, c, echo))
  {
    if a.Editor? {
      ExecutedOfFeed(a, c, echo);
      ExecutedOfFeed(b, c, echo);
    }
  }

  lemma ExecutedOfFeed(e: Editor, c: char, echo: bool)
    requires e.Editor?
    ensures var e' := Feed(e, c, echo);
            e'.Editor? ==> Executed(e'.ops) == Executed(e.ops) + (if c == CR && e.line != [] then [e.line] else [])
  {
    var none := Executed(e.ops) + [];
    assert e.ops + [] == e.ops && none == Executed(e.ops);
    if c == CR {
      if |e.line| < CMD_BUF_SIZE {
        ReturnExecutes(e.line, e.ops, echo);
      }
    } else {
      ExecutedAppend(e.ops, Echoed(echo, Echo(c)));
    }
  }

  lemma {:induction false} FeedAllKeepsSameLine(a: Editor, b: Editor, s: seq<char>, echo: bool)
    requires SameLine(a, b)
    ensures SameLine(FeedAll(a, s, echo), FeedAll(b, s, echo))
    decreases |s|
  {
    hide Feed, SameLine;
    if s != [] {
      FeedKeepsSameLine(a, b, s[0], echo);
      FeedAllKeepsSameLine(Feed(a, s[0], echo), Feed(b, s[0], echo), s[1..], echo);
    }
  }

  lemma FlushKeepsSameLine(e: Editor, s: seq<char>, echo: bool)
    ensures SameLine(ProcessCall(e, s, echo), FeedAll(e, s, echo))
  {
    var e' := FeedAll(e, s, echo);
    if e'.Editor? {
      ExecutedAppend(e'.ops, [FlushTx]);
    }
  }

  /** Several calls do to the line and the commands what one pass over all characters does. */
  lemma {:induction false} CallsMatchOnePass(a: Editor, b: Editor, chunks: seq<seq<char>>, echo: bool)
    requires SameLine(a, b)
    ensures SameLine(ProcessCalls(a, chunks, echo), FeedAll(b, Concat(chunks), echo))
    decreases |chunks|
  {
    hide Feed, FeedAll, ProcessCall;
    if chunks == [] {
      FeedNothing(b, echo);
    } else {
      FlushKeepsSameLine(a, chunks[0], echo);
      FeedAllKeepsSameLine(a, b, chunks[0], echo);
      CallsMatchOnePass(ProcessCall(a, chunks[0], echo), FeedAll(b, chunks[0], echo), chunks[1..], echo);
      FeedSplit(b, chunks[0], Concat(chunks[1..]), echo);
    }
  }

  lemma FeedNothing(e: Editor, echo: bool)
    ensures FeedAll(e, [], echo) == e
  {
  }

  /** Main result. However a stream arrives in pieces, with process_input() called once for each,
      cmd_buf is overrun exactly when some terminated line of the stream has 80 or more printable
      characters; otherwise the commands executed are exactly the non-empty lines of the stream, in
      order, and the line being typed is its unterminated rest. */
  lemma CallsExecuteLines(chunks: seq<seq<char>>, echo: bool)
    ensures var (lines, rest) := Split(Concat(chunks));
            var e := ProcessCalls(Editor([], []), chunks, echo);
            && (e.Editor? <==> AllFit(lines))
            && (e.Editor? ==> Executed(e.ops) == Commands(lines) && e.line == Kept(Printables(rest)))
  {
    hide Feed, FeedAll, ProcessCalls, Split, Commands, Kept;
    CallsMatchOnePass(Editor([], []), Editor([], []), chunks, echo);
    EditorExecutesLines(Concat(chunks), echo);
  }

  /** The shortest input that runs over the end of cmd_buf. */
  lemma OverrunExample(s: seq<char>)
    requires |s| == 81 && s[80] == CR && forall k :: 0 <= k < 80 ==> s[k] == 'x'
    ensures FeedAll(Editor([], []), s, true) == Overrun
  {
    TypingFills(s, 80);
    assert s == s[..80] + [CR];
    FeedSplit(Editor([], []), s[..80], [CR], true);
    assert [CR][1..] == [];
  }

  lemma {:induction false} TypingFills(s: seq<char>, n: nat)
    requires n <= |s| && n <= CMD_BUF_SIZE && forall k :: 0 <= k < n ==> s[k] == 'x'
    ensures var e := FeedAll(Editor([], []), s[..n], true); e.Editor? && |e.line| == n
  {
    if n > 0 {
      TypingFills(s, n - 1);
      assert s[..n] == s[..n - 1] + ['x'];
      FeedSplit(Editor([], []), s[..n - 1], ['x'], true);
      assert ['x'][1..] == [];
    }
  }
}
