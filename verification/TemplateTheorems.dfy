/** What template_parse accepts and what it returns: exactly the flattenings of the trees the
    source spells, whose printed form parses back to the same program. */
module TemplateTheorems {
  import opened Texts
  import opened Templates
  import opened TemplateParser

  // ---------- lexing apart from parsing ----------

  /** All tokens of a source. */
  function Lex(s: Text): Result<seq<Token>, ErrorKind>
    decreases |s|
  {
    if s == "" then Success([])
    else
      match ReadToken(s)
      case Failure(kind) => Failure(kind)
      case Success((token, length)) =>
        match Lex(s[length..])
        case Failure(kind) => Failure(kind)
        case Success(ts) => Success([token] + ts)
  }

  function RunTokens(ts: seq<Token>, st: ParserState): (r: Result<ParserState, ErrorKind>)
    requires StackInProgram(st)
    ensures r.Success? ==> StackInProgram(r.value)
  {
    if ts == [] then Success(st)
    else
      var next := Step(st, ts[0]);
      if next.Failure? then next else RunTokens(ts[1..], next.value)
  }

  /** The parser succeeds with `p` on `s`: its tokens drive the stack machine to `p` with no
      section left open. */
  ghost predicate ParsesTo(s: Text, st: ParserState, p: Program)
    requires StackInProgram(st)
  {
    Lex(s).Success? && RunTokens(Lex(s).value, st) == Success(ParserState(p, []))
  }

  lemma {:induction false} ParseIsLexThenRun(s: Text, offset: nat, st: ParserState, p: Program)
    requires StackInProgram(st)
    ensures ParseFrom(s, offset, st) == Success(p) <==> ParsesTo(s, st, p)
    decreases |s|
  {
    hide ReadToken, Step;
    if s != "" && ReadToken(s).Success? {
      var (token, length) := ReadToken(s).value;
      var next := Step(st, token);
      if Lex(s[length..]).Success? {
        var ts := Lex(s[length..]).value;
        assert ([token] + ts)[1..] == ts;
      }
      if next.Success? {
        ParseIsLexThenRun(s[length..], offset + length, next.value, p);
      }
    }
  }

  // ---------- the stack machine builds flattenings ----------

  lemma {:induction false} RunHead(t: Token, rest: seq<Token>, st: ParserState)
    requires StackInProgram(st)
    ensures var next := Step(st, t);
            RunTokens([t] + rest, st) == if next.Failure? then next else RunTokens(rest, next.value)
  {
    hide Step;
    assert ([t] + rest)[1..] == rest;
  }

  function Extend(st: ParserState, p: Program): ParserState {
    st.(program := st.program + p)
  }

  lemma {:induction false} ExtendTwice(st: ParserState, p: Program, q: Program)
    ensures Extend(Extend(st, p), q) == Extend(st, p + q)
    ensures Extend(st, []) == st
  {
    assert st.program + p + q == st.program + (p + q);
    assert st.program + [] == st.program;
  }

  lemma {:induction false} PatchHead(before: Program, head: Instruction, body: Program, jump: nat)
    ensures (before + [head] + body)[|before| := head.(jump := jump)] == before + ([head.(jump := jump)] + body)
  {
  }

  /** Opening a section, emitting its body and closing it emits the flattened section. */
  lemma {:induction false} StepAcrossSection(n: Node, st: ParserState)
    requires n.SectionNode? && StackInProgram(st)
    ensures var begun := Step(st, OpenToken(n.inverse, n.path));
            && begun.Success?
            && var filled := Extend(begun.value, Flatten(n.body, |begun.value.program|));
            && StackInProgram(filled)
            && Step(filled, CloseToken(n.path)) == Success(Extend(st, FlattenNode(n, |st.program|)))
  {
    hide Flatten;
    var base := |st.program|;
    var body := Flatten(n.body, base + 1);
    var head := Instruction(SectionKindOf(n.inverse), n.path, 0);
    var filled := st.program + [head] + body;
    assert filled[base := head.(jump := |filled|)] == st.program + ([head.(jump := |filled|)] + body);
    assert (st.sections + [OpenSection(n.path, base)])[..|st.sections|] == st.sections;
  }

  /** From any state, the tokens of a forest emit its flattening and leave the stack alone. */
  lemma {:induction false} RunForest(ns: seq<Node>, rest: seq<Token>, st: ParserState)
    requires StackInProgram(st)
    ensures RunTokens(TokensOf(ns) + rest, st) == RunTokens(rest, Extend(st, Flatten(ns, |st.program|)))
    decreases ns, 0
  {
    hide RunTokens, TokensOfNode, FlattenNode;
    if ns == [] {
      ExtendTwice(st, [], []);
      assert TokensOf(ns) + rest == rest;
    } else {
      var tail := TokensOf(ns[1..]) + rest;
      assert TokensOf(ns) + rest == TokensOfNode(ns[0]) + tail;
      RunNode(ns[0], tail, st);
      var head := FlattenNode(ns[0], |st.program|);
      RunForest(ns[1..], rest, Extend(st, head));
      ExtendTwice(st, head, Flatten(ns[1..], |st.program| + |head|));
    }
  }

  lemma {:induction false} RunNode(n: Node, rest: seq<Token>, st: ParserState)
    requires StackInProgram(st)
    ensures RunTokens(TokensOfNode(n) + rest, st) == RunTokens(rest, Extend(st, FlattenNode(n, |st.program|)))
    decreases n, 1
  {
    if n.SectionNode? {
      hide RunTokens, Step, FlattenNode, TokensOf;
      var open, close := OpenToken(n.inverse, n.path), CloseToken(n.path);
      var inner := TokensOf(n.body) + ([close] + rest);
      assert TokensOfNode(n) + rest == [open] + inner;
      StepAcrossSection(n, st);
      RunHead(open, inner, st);
      var begun := Step(st, open).value;
      RunForest(n.body, [close] + rest, begun);
      RunHead(close, rest, Extend(begun, Flatten(n.body, |begun.program|)));
    } else {
      hide RunTokens;
      RunHead(TokensOfNode(n)[0], rest, st);
    }
  }

  // ---------- and nothing else ----------

  /** The sections that are still open, innermost outside, with the nodes in front of each. */
  datatype Frames = Root | Open(outer: Frames, before: seq<Node>, inverse: bool, path: Text)

  function OpenProgram(fs: Frames, current: seq<Node>): Program {
    match fs
    case Root => Flatten(current, 0)
    case Open(outer, before, inverse, path) =>
      var head := OpenProgram(outer, before) + [Instruction(SectionKindOf(inverse), path, 0)];
      head + Flatten(current, |head|)
  }

  function OpenSections(fs: Frames): seq<OpenSection> {
    match fs
    case Root => []
    case Open(outer, before, _, path) => OpenSections(outer) + [OpenSection(path, |OpenProgram(outer, before)|)]
  }

  function OpenTokens(fs: Frames, current: seq<Node>): seq<Token> {
    match fs
    case Root => TokensOf(current)
    case Open(outer, before, inverse, path) =>
      OpenTokens(outer, before) + [OpenToken(inverse, path)] + TokensOf(current)
  }

  function OpenState(fs: Frames, current: seq<Node>): ParserState {
    ParserState(OpenProgram(fs, current), OpenSections(fs))
  }

  lemma {:induction false} FlattenSnoc(ns: seq<Node>, n: Node, base: nat)
    ensures Flatten(ns + [n], base) == Flatten(ns, base) + FlattenNode(n, base + Size(ns))
    ensures TokensOf(ns + [n]) == TokensOf(ns) + TokensOfNode(n)
  {
    FlattenAppend(ns, [n], base);
    TokensAppend(ns, [n]);
    assert [n][1..] == [];
  }

  /** A complete node joins the innermost open section. */
  lemma {:induction false} OpenAppend(fs: Frames, current: seq<Node>, n: Node)
    ensures OpenProgram(fs, current + [n]) == OpenProgram(fs, current) + FlattenNode(n, |OpenProgram(fs, current)|)
    ensures OpenTokens(fs, current + [n]) == OpenTokens(fs, current) + TokensOfNode(n)
  {
    hide Flatten, FlattenNode, TokensOf, TokensOfNode;
    match fs
    case Root => FlattenSnoc(current, n, 0);
    case Open(outer, before, _, _) => FlattenSnoc(current, n, |OpenProgram(outer, before)| + 1);
  }

  lemma {:induction false} OpenPush(fs: Frames, current: seq<Node>, inverse: bool, path: Text)
    requires StackInProgram(OpenState(fs, current))
    ensures Step(OpenState(fs, current), OpenToken(inverse, path))
         == Success(OpenState(Open(fs, current, inverse, path), []))
    ensures OpenTokens(Open(fs, current, inverse, path), []) == OpenTokens(fs, current) + [OpenToken(inverse, path)]
  {
    var head := OpenProgram(fs, current) + [Instruction(SectionKindOf(inverse), path, 0)];
    assert head + Flatten([], |head|) == head;
  }

  lemma {:induction false} OpenPop(fs: Frames, current: seq<Node>, path: Text)
    requires StackInProgram(OpenState(fs, current))
    requires Step(OpenState(fs, current), CloseToken(path)).Success?
    ensures fs.Open? &&
            var closed := fs.before + [SectionNode(fs.inverse, fs.path, current)];
            && Step(OpenState(fs, current), CloseToken(path)) == Success(OpenState(fs.outer, closed))
            && OpenTokens(fs.outer, closed) == OpenTokens(fs, current) + [CloseToken(path)]
  {
    var n := SectionNode(fs.inverse, fs.path, current);
    var outer := OpenProgram(fs.outer, fs.before);
    var head := Instruction(SectionKindOf(fs.inverse), fs.path, 0);
    var body := Flatten(current, |outer| + 1);
    var program := OpenProgram(fs, current);
    OpenAppend(fs.outer, fs.before, n);
    assert FlattenNode(n, |outer|) == [head.(jump := |program|)] + body;
    hide OpenProgram, FlattenNode, Flatten, TokensOf;
    assert OpenSections(fs)[..|OpenSections(fs)| - 1] == OpenSections(fs.outer);
    PatchHead(outer, head, body, |program|);
  }

  lemma {:induction false} StepOpen(t: Token, fs: Frames, current: seq<Node>) returns (fs': Frames, current': seq<Node>)
    requires StackInProgram(OpenState(fs, current)) && Step(OpenState(fs, current), t).Success?
    ensures Step(OpenState(fs, current), t) == Success(OpenState(fs', current'))
    ensures OpenTokens(fs', current') == OpenTokens(fs, current) + [t]
    ensures StackInProgram(OpenState(fs', current'))
  {
    hide OpenProgram, OpenSections, OpenTokens;
    if t.OpenToken? {
      OpenPush(fs, current, t.inverse, t.path);
      fs', current' := Open(fs, current, t.inverse, t.path), [];
    } else if t.CloseToken? {
      OpenPop(fs, current, t.path);
      fs', current' := fs.outer, fs.before + [SectionNode(fs.inverse, fs.path, current)];
    } else {
      var n := match t
        case TextToken(text) => TextNode(text)
        case VariableToken(path) => VariableNode(path)
        case PartialToken(path) => PartialNode(path)
        case _ => YieldNode;
      OpenAppend(fs, current, n);
      fs', current' := fs, current + [n];
    }
  }

  /** If the tokens `ts` complete the open sections, everything read spells one forest and the
      program is its flattening. */
  lemma {:induction false} RunIsForest(ts: seq<Token>, fs: Frames, current: seq<Node>, p: Program)
    returns (ns: seq<Node>)
    requires StackInProgram(OpenState(fs, current))
    requires RunTokens(ts, OpenState(fs, current)) == Success(ParserState(p, []))
    ensures TokensOf(ns) == OpenTokens(fs, current) + ts && p == Flatten(ns, 0)
  {
    hide RunTokens, Step, OpenTokens, OpenState;
    if ts == [] {
      RunNothing(OpenState(fs, current));
      ns := EndIsClosed(fs, current, p);
    } else {
      assert ts == [ts[0]] + ts[1..];
      RunHead(ts[0], ts[1..], OpenState(fs, current));
      var fs', current' := StepOpen(ts[0], fs, current);
      ns := RunIsForest(ts[1..], fs', current', p);
      assert OpenTokens(fs, current) + [ts[0]] + ts[1..] == OpenTokens(fs, current) + ts;
    }
  }

  lemma {:induction false} EndIsClosed(fs: Frames, current: seq<Node>, p: Program) returns (ns: seq<Node>)
    requires OpenState(fs, current) == ParserState(p, [])
    ensures TokensOf(ns) == OpenTokens(fs, current) + [] && p == Flatten(ns, 0)
  {
    ns := current;
  }

  lemma {:induction false} StartIsOpen()
    ensures OpenState(Root, []) == START && OpenTokens(Root, []) == [] && StackInProgram(START)
  {
  }

  lemma {:induction false} RunNothing(st: ParserState)
    requires StackInProgram(st)
    ensures RunTokens([], st) == Success(st)
  {
  }

  /** Main result: a source parses to `p` exactly when it spells some tree whose flattening,
      jumps included, is `p`. */
  lemma {:induction false} ParseIsFlattening(source: Text, p: Program)
    ensures ParseTemplate(source) == Success(p)
       <==> exists ns :: Lex(source) == Success(TokensOf(ns)) && p == Flatten(ns, 0)
  {
    hide Lex, RunTokens, TokensOf, Flatten;
    ParseIsLexThenRun(source, 0, START, p);
    StartIsOpen();
    if ParseTemplate(source) == Success(p) {
      var ns := RunIsForest(Lex(source).value, Root, [], p);
      assert [] + Lex(source).value == Lex(source).value;
    }
    forall ns | Lex(source) == Success(TokensOf(ns)) && p == Flatten(ns, 0)
      ensures ParseTemplate(source) == Success(p)
    {
      RunForest(ns, [], START);
      assert TokensOf(ns) + [] == TokensOf(ns);
      RunNothing(Extend(START, Flatten(ns, 0)));
      assert [] + Flatten(ns, 0) == Flatten(ns, 0);
    }
  }

  // ---------- printing ----------

  lemma {:induction false} TagTextPlain(t: Token)
    requires !t.TextToken? && TokenWellFormed(t)
    ensures var tag := TagText(t);
            && tag != "" && (forall i :: 0 <= i < |tag| ==> tag[i] != '}')
            && !IsSpace(tag[0]) && !IsSpace(tag[|tag| - 1])
    ensures !t.YieldToken? ==> t.path != "" && !IsSpace(t.path[0]) && IsPathChar(t.path[0])
                               && !IsSpace(t.path[|t.path| - 1])
  {
    hide IsVariablePath, IsViewPath;
    if !t.YieldToken? {
      VariablePathChars(t.path);
      ViewPathChars(t.path);
    }
  }

  lemma {:induction false} TrimPlain(s: Text)
    requires s != "" && !IsSpace(s[0]) && !IsSpace(s[|s| - 1])
    ensures Trim(s) == s
  {
    TrimPadded("", s, "");
    assert "" + s + "" == s;
  }

  lemma {:induction false} ClassifySigil(t: Token, tag: Text)
    requires t.OpenToken? || t.CloseToken? || t.PartialToken?
    requires TokenWellFormed(t) && tag == TagText(t) && Trim(tag[1..]) == t.path
    ensures Classify(tag) == Success(t)
  {
    hide Trim, IsVariablePath, IsViewPath;
    assert "yield"[0] == 'y';
    assert tag[0] == if t.OpenToken? then (if t.inverse then '^' else '#') else if t.CloseToken? then '/' else '>';
  }

  lemma {:induction false} ClassifyTagText(t: Token)
    requires !t.TextToken? && TokenWellFormed(t)
    ensures Classify(TagText(t)) == Success(t)
  {
    hide Trim, IsVariablePath, IsViewPath;
    TagTextPlain(t);
    if t.OpenToken? || t.CloseToken? || t.PartialToken? {
      assert TagText(t)[1..] == t.path;
      TrimPlain(t.path);
      ClassifySigil(t, TagText(t));
    }
  }

  lemma {:induction false} ReadPrintedText(text: Text, rest: Text)
    requires TokenWellFormed(TextToken(text))
    requires rest != "" ==> "{{" <= rest && text[|text| - 1] != '{'
    ensures ReadToken(text + rest) == Success((TextToken(text), |text|))
  {
    hide FindFrom, Classify;
    var s := text + rest;
    forall j: nat | j < |text|
      ensures !OccursAt(s, "{{", j)
    {
      assert !OccursAt(text, "{{", j);
      assert j + 2 <= |text| ==> s[j..j + 2] == text[j..j + 2];
      assert j + 2 <= |s| ==> s[j..j + 2][0] == text[j];
    }
    if rest == "" {
      assert s == text;
    } else {
      assert s[|text|..|text| + 2] == rest[..2];
      FoundAt(s, "{{", 0, |text|);
      assert s[..|text|] == text;
    }
  }

  lemma {:induction false} ReadPrintedTag(t: Token, rest: Text)
    requires !t.TextToken? && TokenWellFormed(t)
    ensures ReadToken(PrintToken(t) + rest) == Success((t, |PrintToken(t)|))
  {
    hide FindFrom, Classify, Trim, TagText, TokenWellFormed;
    var tag := TagText(t);
    var s := PrintToken(t) + rest;
    TagTextPlain(t);
    TrimPlain(tag);
    ClassifyTagText(t);
    assert s == "{{" + tag + "}}" + rest;
    assert s[0..2] == "{{";
    FoundAt(s, "{{", 0, 0);
    forall j: nat | 2 <= j < 2 + |tag|
      ensures !OccursAt(s, "}}", j)
    {
      assert s[j] == tag[j - 2];
      assert j + 2 <= |s| ==> s[j..j + 2][0] == s[j];
    }
    assert s[2 + |tag|..2 + |tag| + 2] == "}}";
    FoundAt(s, "}}", 2, 2 + |tag|);
    assert s[2..2 + |tag|] == tag;
  }

  /** Reading the printed form of a token gives it back, whatever follows it legally. */
  lemma {:induction false} ReadPrinted(t: Token, rest: Text)
    requires TokenWellFormed(t)
    requires t.TextToken? && rest != "" ==> "{{" <= rest && CanFollow(t, YieldToken)
    ensures PrintToken(t) + rest != ""
    ensures ReadToken(PrintToken(t) + rest) == Success((t, |PrintToken(t)|))
  {
    hide ReadToken, FindFrom;
    if t.TextToken? {
      ReadPrintedText(t.text, rest);
    } else {
      ReadPrintedTag(t, rest);
    }
  }

  lemma {:induction false} PrintableTail(ts: seq<Token>)
    requires ts != [] && Printable(ts)
    ensures TokenWellFormed(ts[0]) && Printable(ts[1..])
    ensures |ts| > 1 ==> CanFollow(ts[0], ts[1])
  {
    forall i | 0 <= i < |ts[1..]|
      ensures TokenWellFormed(ts[1..][i]) && (i < |ts[1..]| - 1 ==> CanFollow(ts[1..][i], ts[1..][i + 1]))
    {
      assert TokenWellFormed(ts[i + 1]);
      assert i < |ts[1..]| - 1 ==> CanFollow(ts[i + 1], ts[i + 2]);
    }
  }

  lemma {:induction false} PrintableCons(t: Token, ts: seq<Token>)
    requires TokenWellFormed(t) && Printable(ts)
    requires ts != [] ==> CanFollow(t, ts[0])
    ensures Printable([t] + ts)
  {
    hide TokenWellFormed, CanFollow;
    var all := [t] + ts;
    forall i | 0 <= i < |all|
      ensures TokenWellFormed(all[i]) && (i < |all| - 1 ==> CanFollow(all[i], all[i + 1]))
    {
      if i > 0 {
        assert all[i] == ts[i - 1];
        assert i < |all| - 1 ==> all[i + 1] == ts[i];
      }
    }
  }

  lemma {:induction false} LexCons(t: Token, printed: Text, rest: Text, ts: seq<Token>)
    requires printed + rest != "" && ReadToken(printed + rest) == Success((t, |printed|))
    requires Lex(rest) == Success(ts)
    ensures Lex(printed + rest) == Success([t] + ts)
  {
    hide ReadToken;
    assert (printed + rest)[|printed|..] == rest;
  }

  lemma {:induction false} PrintedTagStart(ts: seq<Token>)
    requires ts != [] && !ts[0].TextToken?
    ensures "{{" <= PrintTokens(ts)
  {
  }

  lemma {:induction false} LexNothing()
    ensures Lex("") == Success([])
  {
  }

  lemma {:induction false} LexPrinted(ts: seq<Token>)
    requires Printable(ts)
    ensures Lex(PrintTokens(ts)) == Success(ts)
  {
    hide Lex, ReadToken, TokenWellFormed, Printable, PrintToken;
    if ts == [] {
      LexNothing();
    } else {
      var t, rest := ts[0], ts[1..];
      PrintableTail(ts);
      if rest != [] && t.TextToken? {
        PrintedTagStart(rest);
      }
      assert PrintTokens(rest) != "" ==> rest != [];
      ReadPrinted(t, PrintTokens(rest));
      LexPrinted(rest);
      LexCons(t, PrintToken(t), PrintTokens(rest), rest);
      assert ts == [t] + rest;
    }
  }

  /** A text read from `s` holds no tag and stops right in front of one, or at the end. */
  lemma {:induction false} ReadTextWellFormed(s: Text)
    requires s != "" && ReadToken(s).Success?
    ensures var (token, length) := ReadToken(s).value;
            && TokenWellFormed(token)
            && (token.TextToken? && s[length..] != "" ==>
                  FindFrom(s[length..], "{{", 0) == Some(0) && CanFollow(token, YieldToken))
    ensures FindFrom(s, "{{", 0) == Some(0) ==> !ReadToken(s).value.0.TextToken?
  {
    hide FindFrom, Classify, TrimLeft, TrimRight;
    var (token, length) := ReadToken(s).value;
    ReadTextThenTag(s);
    if token.TextToken? {
      assert token.text == s[..length];
      forall j: nat
        ensures !OccursAt(token.text, "{{", j)
      {
        assert j + 2 <= length ==> token.text[j..j + 2] == s[j..j + 2];
        assert j < length ==> !OccursAt(s, "{{", j);
      }
      if length < |s| {
        assert s[length..length + 2] == "{{";
        assert s[length] == '{' && s[length - 1..length + 1] == [s[length - 1], s[length]];
        assert !OccursAt(s, "{{", length - 1);
      }
    }
  }

  /** Whatever the lexer reads can be printed. */
  lemma {:induction false} LexedPrintable(s: Text)
    requires Lex(s).Success?
    ensures Printable(Lex(s).value)
    ensures s != "" ==> Lex(s).value != [] && ReadToken(s).Success? && Lex(s).value[0] == ReadToken(s).value.0
    decreases |s|
  {
    if s != "" {
      hide ReadToken, FindFrom, TokenWellFormed, Printable;
      var (token, length) := ReadToken(s).value;
      var ts := Lex(s[length..]).value;
      LexedPrintable(s[length..]);
      ReadTextWellFormed(s);
      if s[length..] != "" {
        ReadTextWellFormed(s[length..]);
      }
      PrintableCons(token, ts);
    }
  }

  /** A well-formed tree prints to a source that parses to exactly its flattening. */
  lemma {:induction false} ParsePrinted(ns: seq<Node>)
    requires WellFormed(ns)
    ensures ParseTemplate(Print(ns)) == Success(Flatten(ns, 0))
  {
    LexPrinted(TokensOf(ns));
    ParseIsFlattening(Print(ns), Flatten(ns, 0));
  }

  /** Every accepted source has a well-formed tree, and printing that tree and parsing the
      result gives the accepted program again. */
  lemma {:induction false} ParseReprint(source: Text, p: Program) returns (ns: seq<Node>)
    requires ParseTemplate(source) == Success(p)
    ensures WellFormed(ns) && Lex(source) == Success(TokensOf(ns)) && Flatten(ns, 0) == p
    ensures ParseTemplate(Print(ns)) == Success(p)
  {
    ParseIsFlattening(source, p);
    ns :| Lex(source) == Success(TokensOf(ns)) && p == Flatten(ns, 0);
    LexedPrintable(source);
    ParsePrinted(ns);
  }
}
