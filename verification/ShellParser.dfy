/** The shell's pipeline parser (lab2/src/command.c:43-91): a line is cut at spaces by `strtok`, and
    the tokens build a linked list of commands. */
module ShellParser {
  datatype File = NoFile | File(name: string)

  datatype Command = Command(args: seq<string>, inFile: File, outFile: File)

  const EMPTY := Command([], NoFile, NoFile)

  /** Slots in the `args` array of a node; nothing checks that they suffice. */
  const ARGS := 10

  // ---------------------------------------------------------------- tokens

  /** The length of the part of `s` before its first space. */
  function WordEnd(s: string): (n: nat)
    ensures n <= |s| && (forall i :: 0 <= i < n ==> s[i] != ' ') && (n < |s| ==> s[n] == ' ')
  {
    if s == "" || s[0] == ' ' then 0 else 1 + WordEnd(s[1..])
  }

  /** What repeated `strtok(line, " ")` returns. */
  function Tokens(s: string): seq<string> {
    if s == "" then []
    else if s[0] == ' ' then Tokens(s[1..])
    else [s[..WordEnd(s)]] + Tokens(s[WordEnd(s)..])
  }

  /** A line is a C string: no NUL inside. */
  ghost predicate Line(s: string) { forall i :: 0 <= i < |s| ==> s[i] != '\0' }

  ghost predicate Word(t: string) {
    t != "" && Line(t) && forall i :: 0 <= i < |t| ==> t[i] != ' '
  }

  lemma {:induction false} TokensAreWords(s: string)
    requires Line(s)
    ensures forall i :: 0 <= i < |Tokens(s)| ==> Word(Tokens(s)[i])
    decreases |s|
  {
    if s != "" {
      TokensAreWords(if s[0] == ' ' then s[1..] else s[WordEnd(s)..]);
    }
  }

  // ---------------------------------------------------------------- commands

  /** The commands that `tokens` add, starting inside command `cur`. A redirection takes the next
      token, and is cleared when there is none. */
  function Parse(cur: Command, tokens: seq<string>): (r: seq<Command>)
    requires forall i :: 0 <= i < |tokens| ==> tokens[i] != ""
    ensures |r| >= 1
    decreases |tokens|
  {
    if tokens == [] then [cur]
    else
      var c := tokens[0][0];
      if c == '|' then [cur] + Parse(EMPTY, tokens[1..])
      else if c == '<' then
        if |tokens| == 1 then [cur.(inFile := NoFile)] else Parse(cur.(inFile := File(tokens[1])), tokens[2..])
      else if c == '>' then
        if |tokens| == 1 then [cur.(outFile := NoFile)] else Parse(cur.(outFile := File(tokens[1])), tokens[2..])
      else Parse(cur.(args := cur.args + [tokens[0]]), tokens[1..])
  }

  function Commands(line: string): seq<Command>
    requires Line(line)
  {
    TokensAreWords(line);
    Parse(EMPTY, Tokens(line))
  }

  /** Every command fits into its `args` array of ten slots. */
  ghost predicate InBounds(cs: seq<Command>) {
    forall i :: 0 <= i < |cs| ==> |cs[i].args| <= 10
  }

  // ---------------------------------------------------------------- rendering

  function FileTokens(op: string, f: File): seq<string> {
    match f
    case NoFile => []
    case File(name) => [op, name]
  }

  function CommandTokens(c: Command): seq<string> {
    c.args + FileTokens("<", c.inFile) + FileTokens(">", c.outFile)
  }

  function PipelineTokens(cs: seq<Command>): seq<string>
    requires cs != []
  {
    if |cs| == 1 then CommandTokens(cs[0]) else CommandTokens(cs[0]) + ["|"] + PipelineTokens(cs[1..])
  }

  function Join(tokens: seq<string>): string {
    if tokens == [] then "" else if |tokens| == 1 then tokens[0] else tokens[0] + " " + Join(tokens[1..])
  }

  function Render(cs: seq<Command>): string
    requires cs != []
  {
    Join(PipelineTokens(cs))
  }

  /** An argument as a user can type it: a word that is not taken for an operator. */
  ghost predicate Argument(t: string) {
    Word(t) && t[0] != '|' && t[0] != '<' && t[0] != '>'
  }

  ghost predicate FileOk(f: File) { f.File? ==> Word(f.name) }

  ghost predicate CommandOk(c: Command) {
    FileOk(c.inFile) && FileOk(c.outFile) && forall i :: 0 <= i < |c.args| ==> Argument(c.args[i])
  }

  ghost predicate PipelineOk(cs: seq<Command>) {
    cs != [] && forall i :: 0 <= i < |cs| ==> CommandOk(cs[i])
  }

  ghost predicate Words(ts: seq<string>) { forall i :: 0 <= i < |ts| ==> Word(ts[i]) }

  lemma {:induction false} WordThenRest(w: string, rest: string)
    requires Word(w) && (rest == "" || rest[0] == ' ')
    ensures Tokens(w + rest) == [w] + Tokens(rest)
  {
    var s := w + rest;
    assert WordEnd(s) == |w| by {
      assert forall i :: 0 <= i < |w| ==> s[i] == w[i];
      if rest != "" { assert s[|w|] == ' '; }
    }
    assert s[..|w|] == w && s[|w|..] == rest;
  }

  lemma {:induction false} TokensOfJoin(ts: seq<string>)
    requires Words(ts)
    ensures Tokens(Join(ts)) == ts
  {
    if |ts| == 1 {
      WordThenRest(ts[0], "");
      assert ts[0] + "" == ts[0] && ts == [ts[0]];
    } else if |ts| > 1 {
      var rest := " " + Join(ts[1..]);
      assert Words(ts[1..]);
      TokensOfJoin(ts[1..]);
      WordThenRest(ts[0], rest);
      assert rest[1..] == Join(ts[1..]);
      assert Tokens(rest) == ts[1..];
      assert ts[0] + " " + Join(ts[1..]) == ts[0] + rest;
      assert ts == [ts[0]] + ts[1..];
    }
  }

  lemma {:induction false} JoinIsLine(ts: seq<string>)
    requires Words(ts)
    ensures Line(Join(ts))
  {
    if ts != [] {
      assert Word(ts[0]);
      JoinIsLine(ts[1..]);
    }
  }

  // ---------------------------------------------------------------- round trip

  lemma {:induction false} ParseArguments(cur: Command, args: seq<string>, rest: seq<string>)
    requires Words(rest) && forall i :: 0 <= i < |args| ==> Argument(args[i])
    ensures Words(args + rest)
    ensures Parse(cur, args + rest) == Parse(cur.(args := cur.args + args), rest)
    decreases |args|
  {
    if args == [] {
      assert args + rest == rest && cur.args + args == cur.args;
    } else {
      var next := cur.(args := cur.args + [args[0]]);
      ParseArguments(next, args[1..], rest);
      assert (args + rest)[1..] == args[1..] + rest;
      assert next.args + args[1..] == cur.args + args;
    }
  }

  lemma {:induction false} ParseRedirections(cur: Command, inFile: File, outFile: File, rest: seq<string>)
    requires Words(rest) && FileOk(inFile) && FileOk(outFile) && cur.inFile == NoFile && cur.outFile == NoFile
    ensures Words(FileTokens("<", inFile) + FileTokens(">", outFile) + rest)
    ensures Parse(cur, FileTokens("<", inFile) + FileTokens(">", outFile) + rest) ==
            Parse(cur.(inFile := inFile, outFile := outFile), rest)
  {
    var outs := FileTokens(">", outFile) + rest;
    var ins := FileTokens("<", inFile) + FileTokens(">", outFile) + rest;
    if outFile.File? {
      assert outs[0] == ">" && outs[1] == outFile.name && outs[2..] == rest;
    } else {
      assert outs == rest;
    }
    if inFile.File? {
      assert ins[0] == "<" && ins[1] == inFile.name && ins[2..] == outs;
    } else {
      assert ins == outs;
    }
  }

  lemma {:induction false} ParseCommand(c: Command, rest: seq<string>)
    requires Words(rest) && CommandOk(c)
    ensures Words(CommandTokens(c) + rest)
    ensures Parse(EMPTY, CommandTokens(c) + rest) == Parse(c, rest)
  {
    hide Parse, FileTokens;
    var tail := FileTokens("<", c.inFile) + FileTokens(">", c.outFile) + rest;
    var cur := EMPTY.(args := c.args);
    ParseRedirections(cur, c.inFile, c.outFile, rest);
    ParseArguments(EMPTY, c.args, tail);
    assert EMPTY.args + c.args == c.args;
    assert CommandTokens(c) + rest == c.args + tail;
  }

  lemma {:induction false} ParsePipeline(cs: seq<Command>)
    requires PipelineOk(cs)
    ensures Words(PipelineTokens(cs))
    ensures Parse(EMPTY, PipelineTokens(cs)) == cs
  {
    if |cs| == 1 {
      ParseCommand(cs[0], []);
      assert CommandTokens(cs[0]) + [] == CommandTokens(cs[0]);
    } else {
      ParsePipeline(cs[1..]);
      var rest := ["|"] + PipelineTokens(cs[1..]);
      ParseCommand(cs[0], rest);
      assert rest[0][0] == '|' && rest[1..] == PipelineTokens(cs[1..]);
      assert CommandTokens(cs[0]) + ["|"] + PipelineTokens(cs[1..]) == CommandTokens(cs[0]) + rest;
      assert cs == [cs[0]] + cs[1..];
    }
  }

  /** Rendering a pipeline and parsing it back gives the pipeline: the commands in order, their
      arguments in order, and their files. */
  lemma RoundTrip(cs: seq<Command>)
    requires PipelineOk(cs)
    ensures Line(Render(cs)) && Commands(Render(cs)) == cs
  {
    ParsePipeline(cs);
    JoinIsLine(PipelineTokens(cs));
    TokensOfJoin(PipelineTokens(cs));
  }

  lemma {:induction false} ParsedIsOk(cur: Command, tokens: seq<string>)
    requires Words(tokens) && CommandOk(cur)
    ensures PipelineOk(Parse(cur, tokens))
    decreases |tokens|
  {
    if tokens != [] {
      var c := tokens[0][0];
      if c == '|' {
        ParsedIsOk(EMPTY, tokens[1..]);
      } else if c == '<' {
        if |tokens| > 1 { ParsedIsOk(cur.(inFile := File(tokens[1])), tokens[2..]); }
      } else if c == '>' {
        if |tokens| > 1 { ParsedIsOk(cur.(outFile := File(tokens[1])), tokens[2..]); }
      } else {
        ParsedIsOk(cur.(args := cur.args + [tokens[0]]), tokens[1..]);
      }
    }
  }

  /** A single command of any words overruns its `args` array exactly when there are more than ten:
      ten are stored, eleven are not. */
  lemma OverlongCommand(args: seq<string>)
    requires forall i :: 0 <= i < |args| ==> Argument(args[i])
    ensures var line := Render([Command(args, NoFile, NoFile)]);
            && Line(line) && Commands(line) == [Command(args, NoFile, NoFile)]
            && (InBounds(Commands(line)) <==> |args| <= 10)
  {
    var c := Command(args, NoFile, NoFile);
    assert CommandOk(c);
    assert [c][0] == c && [c][0].args == args;
    hide CommandOk, Render, Commands;
    RoundTrip([c]);
  }

  // ---------------------------------------------------------------- what the tokens mean

  /** Tokens are told apart by their first character alone, wherever they stand; a redirection takes
      the next token whatever it is, and is cleared when there is none. */
  lemma {:induction false} TokenMeaning(cur: Command, token: string, rest: seq<string>)
    requires token != "" && Words(rest)
    ensures forall i :: 0 <= i < |[token] + rest| ==> ([token] + rest)[i] != ""
    ensures var r := Parse(cur, [token] + rest);
            match token[0]
            case '|' => r == [cur] + Parse(Command([], NoFile, NoFile), rest)
            case '<' =>
              if rest == [] then r == [cur.(inFile := NoFile)]
              else r == Parse(cur.(inFile := File(rest[0])), rest[1..])
            case '>' =>
              if rest == [] then r == [cur.(outFile := NoFile)]
              else r == Parse(cur.(outFile := File(rest[0])), rest[1..])
            case _ => r == Parse(cur.(args := cur.args + [token]), rest)
    ensures Parse(cur, []) == [cur]
  {
    var tokens := [token] + rest;
    assert tokens[0] == token && tokens[1..] == rest;
    if rest != [] {
      assert tokens[1] == rest[0] && tokens[2..] == rest[1..];
    }
  }

  /** A word ends at a space, and only there: a tab or a comma is part of it. */
  lemma NextWord(w: string, rest: string)
    requires w != "" && forall i :: 0 <= i < |w| ==> w[i] != ' ' && w[i] != '\0'
    ensures Tokens(w + " " + rest) == [w] + Tokens(rest) && Tokens(w) == [w] && Tokens("") == []
  {
    assert Word(w);
    WordThenRest(w, " " + rest);
    assert w + (" " + rest) == w + " " + rest && (" " + rest)[1..] == rest;
    assert Tokens(" " + rest) == Tokens(rest);
    WordThenRest(w, "");
    assert w + "" == w;
  }

  lemma ExampleTail()
    ensures Tokens("> b") == [">", "b"]
  {
    hide Tokens, WordEnd, Word;
    NextWord(">", "b");
    NextWord("b", "");
    assert ">" + " " + "b" == "> b";
  }

  lemma ExampleTokens()
    ensures Tokens("ls > b") == ["ls", ">", "b"]
  {
    hide Tokens, WordEnd, Word;
    ExampleTail();
    NextWord("ls", "> b");
    assert "ls" + " " + "> b" == "ls > b";
  }

  /** One line from its characters to its command. */
  lemma ExampleCommands()
    ensures Line("ls > b") && Commands("ls > b") == [Command(["ls"], NoFile, File("b"))]
  {
    ExampleTokens();
    hide Tokens, Parse;
    var c := Command(["ls"], NoFile, File("b"));
    ParseCommand(c, []);
    assert CommandTokens(c) + [] == ["ls", ">", "b"];
    TokenMeaning(c, "x", []);
  }

  /** For any line at all: what the parser makes of it can be rendered, and parsing the rendered
      line gives the same commands. */
  lemma ReparseIsStable(line: string)
    requires Line(line)
    ensures PipelineOk(Commands(line)) && Line(Render(Commands(line)))
    ensures Commands(Render(Commands(line))) == Commands(line)
  {
    TokensAreWords(line);
    ParsedIsOk(EMPTY, Tokens(line));
    RoundTrip(Commands(line));
  }

  // ---------------------------------------------------------------- the code

  /** A string that does not start with a space is its first token, if any, and the rest. */
  lemma {:induction false} FirstToken(s: string, n: nat)
    requires Line(s)
    requires n <= |s| && (forall i :: 0 <= i < n ==> s[i] != ' ') && (n < |s| ==> s[n] == ' ')
    requires s != "" ==> s[0] != ' '
    ensures if s == "" then n == 0 && Tokens(s) == []
            else Word(s[..n]) && Tokens(s) == [s[..n]] + Tokens(s[n..])
  {
    assert WordEnd(s) == n;
  }

  /** The token that a scan from `start` to `pos` has found in a line. */
  lemma {:induction false} TokenAt(line: string, start: nat, pos: nat)
    requires Line(line) && start <= pos <= |line| && (start < |line| ==> line[start] != ' ')
    requires (forall i :: start <= i < pos ==> line[i] != ' ') && (pos < |line| ==> line[pos] == ' ')
    ensures if start == |line| then pos == start && Tokens(line[start..]) == []
            else
              && start < pos && Word(line[start..pos])
              && Tokens(line[start..]) == [line[start..pos]] + Tokens(line[pos..])
  {
    hide Tokens, Word;
    FirstToken(line[start..], pos - start);
    assert line[start..][..pos - start] == line[start..pos] && line[start..][pos - start..] == line[pos..];
  }

  /** The state `strtok` keeps between calls. */
  class Tokenizer {
    const line: string
    var pos: nat

    ghost predicate Valid()
      reads this
    {
      pos <= |line| && Line(line)
    }

    /** The tokens still to come. */
    ghost function Rest(): seq<string>
      reads this
      requires Valid()
    {
      Tokens(line[pos..])
    }

    constructor (line: string)
      requires Line(line)
      ensures Valid() && Rest() == Tokens(line)
    {
      this.line := line;
      pos := 0;
      new;
      assert line[0..] == line;
    }

    /** The next token; the empty string stands for NULL. */
    method Next() returns (token: string)
      requires Valid()
      modifies this
      ensures Valid()
      ensures if old(Rest()) == [] then token == "" && Rest() == []
              else token == old(Rest())[0] && token != "" && Word(token) && Rest() == old(Rest())[1..]
    {
      hide Tokens, Word, Line;
      SkipSpaces();
      var start := pos;
      while pos < |line| && line[pos] != ' '
        invariant start <= pos <= |line|
        invariant forall i :: start <= i < pos ==> line[i] != ' '
      {
        pos := pos + 1;
      }
      token := line[start..pos];
      TokenAt(line, start, pos);
    }

    method SkipSpaces()
      requires Valid()
      modifies this
      ensures Valid() && Rest() == old(Rest()) && (pos < |line| ==> line[pos] != ' ')
    {
      while pos < |line| && line[pos] == ' '
        invariant Valid() && Rest() == old(Rest())
      {
        assert line[pos..][1..] == line[pos + 1..];
        pos := pos + 1;
      }
    }
  }

  /** A node of the list; unused `args` slots hold the empty string for NULL. */
  class CmdNode {
    const args: array<string>
    var length: nat
    var inFile: File
    var outFile: File
    var next: CmdNode?

    constructor ()
      ensures fresh(args) && args.Length == ARGS && length == 0 && next == null
      ensures inFile == NoFile && outFile == NoFile
    {
      args := new string[ARGS](_ => "");
      length, inFile, outFile, next := 0, NoFile, NoFile, null;
    }

    ghost function Value(): Command
      reads this, args
    {
      if length <= args.Length then Command(args[..length], inFile, outFile) else EMPTY
    }
  }

  /** `nodes` is a linked list, each node with its own `args` array. */
  ghost predicate Linked(nodes: seq<CmdNode>)
    reads nodes
  {
    && (forall i :: 0 <= i < |nodes| ==> nodes[i].next == if i + 1 < |nodes| then nodes[i + 1] else null)
    && (forall i, j :: 0 <= i < j < |nodes| ==> nodes[i] != nodes[j] && nodes[i].args != nodes[j].args)
    && (forall i :: 0 <= i < |nodes| ==> nodes[i].args.Length == ARGS && nodes[i].length <= ARGS)
  }

  ghost function Values(nodes: seq<CmdNode>): (r: seq<Command>)
    reads nodes, set n | n in nodes :: n.args
    ensures |r| == |nodes| && forall i :: 0 <= i < |nodes| ==> r[i] == nodes[i].Value()
  {
    seq(|nodes|, i requires 0 <= i < |nodes| reads nodes, set n | n in nodes :: n.args => nodes[i].Value())
  }

  lemma {:induction false} ParseExtends(cur: Command, tokens: seq<string>)
    requires Words(tokens)
    ensures |Parse(cur, tokens)[0].args| >= |cur.args|
    decreases |tokens|
  {
    if tokens != [] {
      var c := tokens[0][0];
      if c == '<' && |tokens| > 1 {
        ParseExtends(cur.(inFile := File(tokens[1])), tokens[2..]);
      } else if c == '>' && |tokens| > 1 {
        ParseExtends(cur.(outFile := File(tokens[1])), tokens[2..]);
      } else if c != '|' && c != '<' && c != '>' {
        ParseExtends(cur.(args := cur.args + [tokens[0]]), tokens[1..]);
      }
    }
  }

  lemma {:induction false} AppendedLinks(nodes: seq<CmdNode>, n: CmdNode)
    requires nodes != [] && nodes[|nodes| - 1].next == n
    requires forall i :: 0 <= i < |nodes| - 1 ==> nodes[i].next == nodes[i + 1]
    requires forall i, j :: 0 <= i < j < |nodes| ==> nodes[i] != nodes[j] && nodes[i].args != nodes[j].args
    requires forall i :: 0 <= i < |nodes| ==> nodes[i].args.Length == ARGS && nodes[i].length <= ARGS
    requires forall i :: 0 <= i < |nodes| ==> nodes[i] != n && nodes[i].args != n.args
    requires n.next == null && n.args.Length == ARGS && n.length <= ARGS
    ensures Linked(nodes + [n])
  {
    var all := nodes + [n];
    assert all[|nodes|] == n && forall i :: 0 <= i < |nodes| ==> all[i] == nodes[i];
    forall i, j | 0 <= i < j < |all|
      ensures all[i] != all[j] && all[i].args != all[j].args
    {
      assert j < |nodes| ==> nodes[i].args != nodes[j].args;
      assert nodes[i].args != n.args;
    }
    forall i | 0 <= i < |nodes|
      ensures all[i].next == all[i + 1]
    {
      assert i < |nodes| - 1 ==> nodes[i].next == nodes[i + 1];
    }
  }

  lemma {:induction false} Appended(nodes: seq<CmdNode>, n: CmdNode, before: seq<Command>)
    requires |before| == |nodes| && n.Value() == EMPTY
    requires forall i :: 0 <= i < |nodes| ==> nodes[i].Value() == before[i]
    ensures Values(nodes + [n]) == before + [EMPTY]
  {
    hide Values;
    assert forall i :: 0 <= i < |nodes| ==> Values(nodes + [n])[i] == (before + [EMPTY])[i];
  }

  /** Links a new empty node behind the last one. */
  method AppendNode(ghost nodes: seq<CmdNode>, last: CmdNode) returns (n: CmdNode)
    requires Linked(nodes) && nodes != [] && last == nodes[|nodes| - 1]
    modifies last
    ensures fresh(n) && fresh(n.args) && Linked(nodes + [n])
    ensures Values(nodes + [n]) == old(Values(nodes)) + [EMPTY]
  {
    ghost var before := Values(nodes);
    hide Values;
    n := new CmdNode();
    last.next := n;
    assert n.Value() == EMPTY;
    assert forall i :: 0 <= i < |nodes| ==> nodes[i].Value() == before[i];
    hide CmdNode.Value;
    Appended(nodes, n, before);
    AppendedLinks(nodes, n);
  }

  /** When only the last node has changed. */
  lemma {:induction false} OnlyLast(nodes: seq<CmdNode>, before: seq<Command>, value: Command)
    requires nodes != [] && |before| == |nodes| && nodes[|nodes| - 1].Value() == value
    requires forall i :: 0 <= i < |nodes| - 1 ==> nodes[i].Value() == before[i]
    ensures Values(nodes) == before[|nodes| - 1 := value]
  {
    hide Values;
    assert forall i :: 0 <= i < |nodes| ==> Values(nodes)[i] == before[|nodes| - 1 := value][i];
  }

  method SetInFile(ghost nodes: seq<CmdNode>, last: CmdNode, f: File)
    requires Linked(nodes) && nodes != [] && last == nodes[|nodes| - 1]
    modifies last`inFile
    ensures Linked(nodes)
    ensures Values(nodes) == old(Values(nodes))[|nodes| - 1 := old(last.Value()).(inFile := f)]
  {
    ghost var before, value := Values(nodes), last.Value();
    last.inFile := f;
    assert last.Value() == value.(inFile := f);
    assert forall i :: 0 <= i < |nodes| ==> nodes[i].next == old(nodes[i].next);
    OnlyLast(nodes, before, value.(inFile := f));
  }

  method SetOutFile(ghost nodes: seq<CmdNode>, last: CmdNode, f: File)
    requires Linked(nodes) && nodes != [] && last == nodes[|nodes| - 1]
    modifies last`outFile
    ensures Linked(nodes)
    ensures Values(nodes) == old(Values(nodes))[|nodes| - 1 := old(last.Value()).(outFile := f)]
  {
    ghost var before, value := Values(nodes), last.Value();
    last.outFile := f;
    assert last.Value() == value.(outFile := f);
    assert forall i :: 0 <= i < |nodes| ==> nodes[i].next == old(nodes[i].next);
    OnlyLast(nodes, before, value.(outFile := f));
  }

  method AddArgument(ghost nodes: seq<CmdNode>, last: CmdNode, token: string)
    requires Linked(nodes) && nodes != [] && last == nodes[|nodes| - 1] && last.length < ARGS
    modifies last`length, last.args
    ensures Linked(nodes)
    ensures Values(nodes) ==
              old(Values(nodes))[|nodes| - 1 := old(last.Value()).(args := old(last.Value()).args + [token])]
  {
    ghost var before, value := Values(nodes), last.Value();
    last.args[last.length] := token;
    last.length := last.length + 1;
    assert last.args[..last.length] == value.args + [token];
    assert last.Value() == value.(args := value.args + [token]);
    assert forall i :: 0 <= i < |nodes| ==> nodes[i].next == old(nodes[i].next);
    OnlyLast(nodes, before, last.Value());
  }

  /** The commands the whole line stands for, given the nodes so far and the tokens to come. */
  ghost predicate Upto(line: string, done: seq<Command>, tokens: seq<string>) {
    done != [] && Words(tokens) && Line(line) && Commands(line) == done[..|done| - 1] + Parse(done[|done| - 1], tokens)
  }

  lemma {:induction false} UptoPipe(line: string, done: seq<Command>, tokens: seq<string>)
    requires Upto(line, done, tokens) && tokens != [] && tokens[0][0] == '|'
    ensures Upto(line, done + [EMPTY], tokens[1..])
  {
    var last := done[|done| - 1];
    assert (done + [EMPTY])[..|done|] == done == done[..|done| - 1] + [last];
    assert Parse(last, tokens) == [last] + Parse(EMPTY, tokens[1..]);
  }

  lemma {:induction false} UptoRedirect(line: string, done: seq<Command>, tokens: seq<string>, next: Command)
    requires Upto(line, done, tokens) && tokens != []
    requires var f := if |tokens| == 1 then NoFile else File(tokens[1]);
             var last := done[|done| - 1];
             (tokens[0][0] == '<' && next == last.(inFile := f)) || (tokens[0][0] == '>' && next == last.(outFile := f))
    ensures Upto(line, done[|done| - 1 := next], if |tokens| == 1 then [] else tokens[2..])
  {
    var n := |done| - 1;
    assert done[n := next][..n] == done[..n];
    if |tokens| == 1 {
      assert Parse(next, []) == [next];
    }
  }

  lemma {:induction false} UptoArgument(line: string, done: seq<Command>, tokens: seq<string>, next: Command)
    requires Upto(line, done, tokens) && tokens != [] && tokens[0][0] != '|' && tokens[0][0] != '<'
             && tokens[0][0] != '>'
    requires next == done[|done| - 1].(args := done[|done| - 1].args + [tokens[0]])
    ensures Upto(line, done[|done| - 1 := next], tokens[1..])
    ensures |next.args| > ARGS ==> !InBounds(Commands(line))
  {
    var n := |done| - 1;
    assert done[n := next][..n] == done[..n];
    ParseExtends(next, tokens[1..]);
    assert Commands(line)[n] == Parse(next, tokens[1..])[0];
  }

  lemma {:induction false} UptoEnd(line: string, done: seq<Command>)
    requires Upto(line, done, [])
    ensures Commands(line) == done
  {
  }

  lemma {:induction false} UptoStart(line: string, done: seq<Command>)
    requires Line(line) && done == [EMPTY]
    ensures Words(Tokens(line)) && Upto(line, done, Tokens(line))
  {
    TokensAreWords(line);
    assert done[..0] + Parse(EMPTY, Tokens(line)) == Commands(line);
  }

  /** The list built so far, ending in `last`, with `rest` still to be parsed. */
  ghost predicate Building(line: string, nodes: seq<CmdNode>, last: CmdNode, rest: seq<string>)
    reads nodes, set n | n in nodes :: n.args
  {
    Linked(nodes) && nodes != [] && last == nodes[|nodes| - 1] && Upto(line, Values(nodes), rest)
  }

  method Pipe(ghost line: string, ghost nodes: seq<CmdNode>, last: CmdNode,
              ghost rest: seq<string>) returns (n: CmdNode)
    requires Building(line, nodes, last, rest) && rest != [] && rest[0] != "" && rest[0][0] == '|'
    modifies last
    ensures fresh(n) && fresh(n.args) && Building(line, nodes + [n], n, rest[1..])
  {
    hide Upto, Values, Linked;
    UptoPipe(line, Values(nodes), rest);
    n := AppendNode(nodes, last);
  }

  /** The redirections; `f` is the token after the operator. */
  method Redirect(ghost line: string, ghost nodes: seq<CmdNode>, last: CmdNode, op: string, f: File,
                  ghost rest: seq<string>)
    requires Building(line, nodes, last, rest) && rest != [] && op == rest[0] && op != "" && op[0] in "<>"
    requires f == if |rest| == 1 then NoFile else File(rest[1])
    modifies last`inFile, last`outFile
    ensures Building(line, nodes, last, if |rest| == 1 then [] else rest[2..])
  {
    hide Upto, Linked;
    ghost var done := Values(nodes);
    if op[0] == '<' {
      UptoRedirect(line, done, rest, last.Value().(inFile := f));
      SetInFile(nodes, last, f);
    } else {
      UptoRedirect(line, done, rest, last.Value().(outFile := f));
      SetOutFile(nodes, last, f);
    }
  }

  /** Stores an argument, or finds that `args` is full, which only happens on an overlong command. */
  method TakeArgument(ghost line: string, ghost nodes: seq<CmdNode>, last: CmdNode, token: string,
                      ghost rest: seq<string>)
    returns (ok: bool)
    requires Building(line, nodes, last, rest) && rest != [] && token == rest[0] && token != "" && token[0] !in "|<>"
    modifies last`length, last.args
    ensures Linked(nodes) && if ok then Building(line, nodes, last, rest[1..]) else !InBounds(Commands(line))
  {
    hide Upto, InBounds, Commands;
    ghost var next := last.Value().(args := last.Value().args + [token]);
    UptoArgument(line, Values(nodes), rest, next);
    ok := last.length < ARGS;
    if ok {
      hide Linked;
      AddArgument(nodes, last, token);
    }
  }

  lemma {:induction false} BuildingStart(line: string, head: CmdNode)
    requires Line(line)
    requires head.args.Length == ARGS && head.length == 0 && head.next == null
    requires head.inFile == NoFile && head.outFile == NoFile
    ensures Words(Tokens(line)) && Building(line, [head], head, Tokens(line))
  {
    hide Upto, Tokens;
    assert Values([head]) == [EMPTY];
    UptoStart(line, Values([head]));
  }

  lemma {:induction false} BuildingEnd(line: string, nodes: seq<CmdNode>, last: CmdNode)
    requires Building(line, nodes, last, [])
    ensures Linked(nodes) && Values(nodes) == Commands(line) && InBounds(Commands(line))
  {
    hide Upto, Commands, Parse, Tokens;
    UptoEnd(line, Values(nodes));
    forall i | 0 <= i < |nodes|
      ensures |Values(nodes)[i].args| <= ARGS
    {
      assert nodes[i].args.Length == ARGS && nodes[i].length <= ARGS;
      assert Values(nodes)[i] == nodes[i].Value();
    }
  }

  lemma {:induction false} WordsRest(rest: seq<string>)
    requires Words(rest)
    ensures |rest| >= 1 ==> Words(rest[1..])
    ensures |rest| >= 2 ==> Words(rest[2..])
    ensures Words([])
  {
  }

  /** `token` is the first of the tokens still to be parsed, or NULL at their end. */
  ghost predicate Ahead(tokens: Tokenizer, token: string, rest: seq<string>)
    reads tokens
  {
    && tokens.Valid() && Words(rest)
    && (token == "" <==> rest == []) && (rest != [] ==> token == rest[0])
    && tokens.Rest() == if rest == [] then [] else rest[1..]
  }

  /** Reads the token after `rest[0]`. */
  method Advance(tokens: Tokenizer, ghost rest: seq<string>) returns (token: string)
    requires tokens.Valid() && Words(rest) && tokens.Rest() == rest
    modifies tokens
    ensures Ahead(tokens, token, rest)
  {
    hide Tokens, Word, Words;
    token := tokens.Next();
  }

  /** One pass of the loop (lab2/src/command.c:63-87); `ok` is false when `args` is full. */
  method TakeToken(ghost line: string, tokens: Tokenizer, token: string, ghost nodes: seq<CmdNode>, last: CmdNode,
                   ghost rest: seq<string>)
    returns (ok: bool, token': string, ghost nodes': seq<CmdNode>, last': CmdNode, ghost rest': seq<string>)
    requires Building(line, nodes, last, rest) && Ahead(tokens, token, rest) && token != ""
    modifies tokens, last, last.args
    ensures (nodes' == nodes && last' == last) || (nodes' == nodes + [last'] && fresh(last') && fresh(last'.args))
    ensures if ok then Building(line, nodes', last', rest') && Ahead(tokens, token', rest') && |rest'| < |rest|
            else Linked(nodes') && !InBounds(Commands(line))
  {
    hide Line, Word, Words, Tokens, Commands, InBounds, Upto, Values, Building, Linked;
    WordsRest(rest);
    ok, token', nodes', last', rest' := true, token, nodes, last, rest[1..];
    if token[0] == '|' {
      last' := Pipe(line, nodes, last, rest);
      nodes' := nodes + [last'];
    } else if token[0] == '<' || token[0] == '>' {
      var file := Advance(tokens, rest[1..]);
      Redirect(line, nodes, last, token, if file == "" then NoFile else File(file), rest);
      rest' := if |rest| == 1 then [] else rest[2..];
    } else {
      ok := TakeArgument(line, nodes, last, token, rest);
      if !ok {
        return;
      }
    }
    token' := Advance(tokens, rest');
  }

  lemma BoundsMeaning(cs: seq<Command>)
    ensures InBounds(cs) <==> forall i :: 0 <= i < |cs| ==> |cs[i].args| <= 10
  {
  }

  /** lab2/src/command.c:43-91. Returns the nodes of the list from its head; `ok` is false when the
      code would write past the end of a node's `args`, which it does exactly when some command
      has more arguments than slots. */
  method SplitLine(line: string) returns (head: CmdNode, ghost nodes: seq<CmdNode>, ok: bool)
    requires Line(line)
    ensures Linked(nodes) && nodes != [] && head == nodes[0]
    ensures ok <==> forall i :: 0 <= i < |Commands(line)| ==> |Commands(line)[i].args| <= 10
    ensures ok ==> Values(nodes) == Commands(line)
  {
    hide Line, Word, Words, Tokens, Commands, InBounds, Upto, Values, Building, Linked;
    BoundsMeaning(Commands(line));
    var tokens := new Tokenizer(line);
    head := new CmdNode();
    nodes := [head];
    var temp := head;
    BuildingStart(line, head);
    ghost var rest := tokens.Rest();
    var token := Advance(tokens, rest);
    while token != ""
      invariant fresh(tokens) && Ahead(tokens, token, rest)
      invariant Building(line, nodes, temp, rest)
      invariant nodes != [] && head == nodes[0] && fresh(temp) && fresh(temp.args)
      decreases |rest|
    {
      ok, token, nodes, temp, rest := TakeToken(line, tokens, token, nodes, temp, rest);
      if !ok {
        return;
      }
    }
    BuildingEnd(line, nodes, temp);
    ok := true;
  }
}
