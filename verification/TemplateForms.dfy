/** The template language by its characters: which names it knows, how every tag is written, with
    whatever white space, and which error each malformed tag is. */
module TemplateForms {
  import opened Texts
  import opened Templates
  import opened TemplateParser
  import opened TemplateTheorems

  // ---------- names ----------

  predicate Letter(c: char) {
    'a' <= c <= 'z' || 'A' <= c <= 'Z' || c == '_'
  }

  predicate Digit(c: char) {
    '0' <= c <= '9'
  }

  /** Letters, digits, underscores and dots; every part between dots starts with a letter or an
      underscore. */
  predicate DottedName(s: Text) {
    && s != "" && Letter(s[0])
    && (forall i :: 0 <= i < |s| ==> Letter(s[i]) || Digit(s[i]) || s[i] == '.')
    && (forall i :: 0 <= i < |s| && s[i] == '.' ==> i + 1 < |s| && Letter(s[i + 1]))
  }

  lemma {:induction false} VariablePathIsDottedName(s: Text)
    ensures IsVariablePath(s) <==> DottedName(s)
    decreases |s|
  {
    var dot := FindChar(s, '.');
    if dot.None? {
      assert forall i :: 0 <= i < |s| ==> s[i] in s;
    } else {
      var n := dot.value;
      VariablePathIsDottedName(s[n + 1..]);
      DottedNameSplit(s, n);
    }
  }

  lemma {:induction false} DottedNameSplit(s: Text, n: nat)
    requires n < |s| && s[n] == '.' && '.' !in s[..n]
    ensures DottedName(s) <==> IsIdentifier(s[..n]) && DottedName(s[n + 1..])
  {
    var first, rest := s[..n], s[n + 1..];
    assert forall i :: 0 <= i < n ==> s[i] == first[i] && first[i] in first;
    assert forall i :: 0 <= i < |rest| ==> rest[i] == s[n + 1 + i];
    assert forall i :: n + 1 <= i < |s| ==> s[i] == rest[i - n - 1];
    if IsIdentifier(first) && DottedName(rest) {
      forall i | 0 <= i < |s| && s[i] == '.'
        ensures i + 1 < |s| && Letter(s[i + 1])
      {
        if i > n {
          assert rest[i - n - 1] == '.' && rest[i - n] == s[i + 1];
        } else {
          assert i == n && s[n + 1] == rest[0];
        }
      }
    }
    if DottedName(s) {
      assert n + 1 < |s| && Letter(s[n + 1]) && n > 0;
      forall i | 0 <= i < |rest| && rest[i] == '.'
        ensures i + 1 < |rest| && Letter(rest[i + 1])
      {
        assert s[n + 1 + i] == '.';
        assert s[n + 1 + i + 1] == rest[i + 1];
      }
    }
  }

  /** Letters, digits, underscores, hyphens and slashes; no slash at either end and none behind
      another. */
  predicate SlashedName(s: Text) {
    && s != "" && s[0] != '/' && s[|s| - 1] != '/'
    && (forall i :: 0 <= i < |s| ==> Letter(s[i]) || Digit(s[i]) || s[i] == '-' || s[i] == '/')
    && (forall i :: 0 < i < |s| ==> !(s[i - 1] == '/' && s[i] == '/'))
  }

  lemma {:induction false} ViewPathIsSlashedName(s: Text)
    ensures IsViewPath(s) <==> SlashedName(s)
    decreases |s|
  {
    var slash := FindChar(s, '/');
    if slash.None? {
      assert forall i :: 0 <= i < |s| ==> s[i] in s;
    } else {
      var n := slash.value;
      ViewPathIsSlashedName(s[n + 1..]);
      SlashedNameSplit(s, n);
    }
  }

  lemma {:induction false} SlashedNameSplit(s: Text, n: nat)
    requires n < |s| && s[n] == '/' && '/' !in s[..n]
    ensures SlashedName(s) <==> IsPathSegment(s[..n]) && SlashedName(s[n + 1..])
  {
    var first, rest := s[..n], s[n + 1..];
    assert forall i :: 0 <= i < n ==> s[i] == first[i] && first[i] in first;
    assert forall i :: 0 <= i < |rest| ==> rest[i] == s[n + 1 + i];
    assert forall i :: n + 1 <= i < |s| ==> s[i] == rest[i - n - 1];
    if IsPathSegment(first) && SlashedName(rest) {
      forall i | 0 < i < |s|
        ensures !(s[i - 1] == '/' && s[i] == '/')
      {
        assert i > n + 1 ==> s[i] == rest[i - n - 1] && s[i - 1] == rest[i - n - 2];
      }
      assert s[|s| - 1] == rest[|rest| - 1];
    }
    if SlashedName(s) {
      assert n > 0 && n + 1 < |s| && !(s[n] == '/' && s[n + 1] == '/');
      forall i | 0 < i < |rest|
        ensures !(rest[i - 1] == '/' && rest[i] == '/')
      {
        assert !(s[n + i] == '/' && s[n + 1 + i] == '/');
      }
    }
  }

  // ---------- how trees are written ----------

  /** The source text of every kind of node. */
  lemma {:induction false} PrintedForms(text: Text, name: Text, body: seq<Node>, rest: seq<Node>)
    ensures Print([]) == "" && Print([TextNode(text)]) == text
    ensures Print([VariableNode(name)]) == "{{" + name + "}}"
    ensures Print([PartialNode(name)]) == "{{" + ">" + name + "}}"
    ensures Print([YieldNode]) == "{{" + "yield" + "}}"
    ensures Print([SectionNode(false, name, body)])
         == "{{" + "#" + name + "}}" + Print(body) + ("{{" + "/" + name + "}}")
    ensures Print([SectionNode(true, name, body)])
         == "{{" + "^" + name + "}}" + Print(body) + ("{{" + "/" + name + "}}")
    ensures Print(body + rest) == Print(body) + Print(rest)
  {
    hide PrintToken, PrintTokens, TokensOf, TokensOfNode, Print;
    NothingPrints();
    OneNodePrints(TextNode(text));
    OneNodePrints(VariableNode(name));
    OneNodePrints(PartialNode(name));
    OneNodePrints(YieldNode);
    TagsPrint(text, name);
    SectionPrints(false, name, body);
    SectionPrints(true, name, body);
    ForestsPrint(body, rest);
  }

  lemma {:induction false} NothingPrints()
    ensures Print([]) == ""
  {
  }

  lemma {:induction false} ForestsPrint(a: seq<Node>, b: seq<Node>)
    ensures Print(a + b) == Print(a) + Print(b)
  {
    TokensAppend(a, b);
    PrintAppend(TokensOf(a), TokensOf(b));
  }

  lemma {:induction false} TagsPrint(text: Text, name: Text)
    ensures TokensOfNode(TextNode(text)) == [TextToken(text)] && PrintToken(TextToken(text)) == text
    ensures TokensOfNode(VariableNode(name)) == [VariableToken(name)]
    ensures PrintToken(VariableToken(name)) == "{{" + name + "}}"
    ensures TokensOfNode(PartialNode(name)) == [PartialToken(name)]
    ensures PrintToken(PartialToken(name)) == "{{" + ">" + name + "}}"
    ensures TokensOfNode(YieldNode) == [YieldToken] && PrintToken(YieldToken) == "{{" + "yield" + "}}"
    ensures PrintToken(CloseToken(name)) == "{{" + "/" + name + "}}"
    ensures PrintToken(OpenToken(false, name)) == "{{" + "#" + name + "}}"
    ensures PrintToken(OpenToken(true, name)) == "{{" + "^" + name + "}}"
  {
    SignInBraces(">", name);
    SignInBraces("/", name);
    SignInBraces("#", name);
    SignInBraces("^", name);
  }

  lemma {:induction false} SignInBraces(sign: Text, name: Text)
    ensures "{{" + (sign + name) + "}}" == "{{" + sign + name + "}}"
  {
  }

  lemma {:induction false} PrintAppend(a: seq<Token>, b: seq<Token>)
    ensures PrintTokens(a + b) == PrintTokens(a) + PrintTokens(b)
  {
    hide PrintToken;
    if a == [] {
      assert a + b == b;
    } else {
      assert (a + b)[1..] == a[1..] + b;
      PrintAppend(a[1..], b);
      assert PrintToken(a[0]) + (PrintTokens(a[1..]) + PrintTokens(b)) == PrintTokens(a) + PrintTokens(b);
    }
  }

  lemma {:induction false} OneTokenPrints(t: Token)
    ensures PrintTokens([t]) == PrintToken(t)
  {
    hide PrintToken;
    assert [t][1..] == [];
    assert PrintToken(t) + "" == PrintToken(t);
  }

  lemma {:induction false} OneNodePrints(n: Node)
    requires !n.SectionNode?
    ensures |TokensOfNode(n)| == 1 && Print([n]) == PrintToken(TokensOfNode(n)[0])
  {
    assert [n][1..] == [];
    assert TokensOf([n]) == TokensOfNode(n) + [] == TokensOfNode(n) == [TokensOfNode(n)[0]];
    OneTokenPrints(TokensOfNode(n)[0]);
  }

  lemma {:induction false} SectionPrints(inverse: bool, name: Text, body: seq<Node>)
    ensures Print([SectionNode(inverse, name, body)])
         == PrintToken(OpenToken(inverse, name)) + Print(body) + PrintToken(CloseToken(name))
  {
    hide PrintToken, PrintTokens;
    var n := SectionNode(inverse, name, body);
    var open, close := OpenToken(inverse, name), CloseToken(name);
    assert [n][1..] == [];
    assert TokensOf([n]) == [open] + TokensOf(body) + [close] + [] == [open] + (TokensOf(body) + [close]);
    hide TokensOf;
    PrintAppend([open], TokensOf(body) + [close]);
    PrintAppend(TokensOf(body), [close]);
    OneTokenPrints(open);
    OneTokenPrints(close);
  }

  // ---------- white space in tags ----------

  predicate White(s: Text) {
    forall i :: 0 <= i < |s| ==> s[i] in {' ', '\t', '\r', '\n', 11 as char, 12 as char}
  }

  lemma {:induction false} WhiteIsSpace(s: Text)
    ensures White(s) <==> AllSpace(s)
  {
  }

  /** White space behind the opening braces, behind the sign of the tag, and in front of the closing
      braces. */
  datatype Spacing = Spacing(before: Text, inner: Text, after: Text)

  predicate WhiteSpacing(p: Spacing) {
    White(p.before) && White(p.inner) && White(p.after)
  }

  function SpacedToken(t: Token, p: Spacing): Text {
    match t
    case TextToken(text) => text
    case VariableToken(path) => "{{" + p.before + path + p.after + "}}"
    case YieldToken => "{{" + p.before + "yield" + p.after + "}}"
    case OpenToken(inverse, path) =>
      "{{" + p.before + ((if inverse then "^" else "#") + p.inner + path) + p.after + "}}"
    case CloseToken(path) => "{{" + p.before + ("/" + p.inner + path) + p.after + "}}"
    case PartialToken(path) => "{{" + p.before + (">" + p.inner + path) + p.after + "}}"
  }

  function SpacedTokens(ts: seq<Token>, ps: seq<Spacing>): Text
    requires |ts| == |ps|
  {
    if ts == [] then "" else SpacedToken(ts[0], ps[0]) + SpacedTokens(ts[1..], ps[1..])
  }

  /** What stands in a tag between its outer white space. */
  function Core(t: Token, inner: Text): Text
    requires !t.TextToken?
  {
    match t
    case VariableToken(path) => path
    case YieldToken => "yield"
    case OpenToken(inverse, path) => (if inverse then "^" else "#") + inner + path
    case CloseToken(path) => "/" + inner + path
    case PartialToken(path) => ">" + inner + path
  }

  lemma {:induction false} CorePlain(t: Token, inner: Text)
    requires !t.TextToken? && TokenWellFormed(t) && White(inner)
    ensures (var core := Core(t, inner);
             && core != "" && !IsSpace(core[0]) && !IsSpace(core[|core| - 1])
             && (forall i :: 0 <= i < |core| ==> core[i] != '}'))
  {
    hide IsVariablePath, IsViewPath;
    if !t.YieldToken? {
      VariablePathChars(t.path);
      ViewPathChars(t.path);
    }
  }

  lemma {:induction false} ClassifySign(t: Token, tag: Text)
    requires (t.OpenToken? || t.CloseToken? || t.PartialToken?) && TokenWellFormed(t) && tag != ""
    requires tag[0] == if t.OpenToken? then (if t.inverse then '^' else '#') else if t.CloseToken? then '/' else '>'
    requires Trim(tag[1..]) == t.path
    ensures Classify(tag) == Success(t)
  {
    hide Trim, IsVariablePath, IsViewPath;
    assert "yield"[0] == 'y';
  }

  lemma {:induction false} SignedCore(t: Token, inner: Text)
    requires (t.OpenToken? || t.CloseToken? || t.PartialToken?) && TokenWellFormed(t) && White(inner)
    ensures Core(t, inner) != "" && Trim(Core(t, inner)[1..]) == t.path
  {
    hide Trim, TokenWellFormed, White, Core, TagText;
    CoreTail(t, inner);
    TagTextPlain(t);
    WhiteIsSpace(inner);
    TrimPadded(inner, t.path, "");
    assert inner + t.path + "" == inner + t.path;
  }

  lemma {:induction false} CoreTail(t: Token, inner: Text)
    requires t.OpenToken? || t.CloseToken? || t.PartialToken?
    ensures Core(t, inner) != "" && Core(t, inner)[1..] == inner + t.path
  {
  }

  lemma {:induction false} ClassifyCore(t: Token, inner: Text)
    requires !t.TextToken? && TokenWellFormed(t) && White(inner)
    ensures Classify(Core(t, inner)) == Success(t)
  {
    hide Trim, White, Classify, TokenWellFormed;
    if t.OpenToken? || t.CloseToken? || t.PartialToken? {
      SignedCore(t, inner);
      ClassifySign(t, Core(t, inner));
    } else {
      ClassifyTagText(t);
    }
  }

  lemma {:induction false} ReadSpacedTag(t: Token, p: Spacing, rest: Text)
    requires !t.TextToken? && TokenWellFormed(t) && WhiteSpacing(p)
    ensures ReadToken(SpacedToken(t, p) + rest) == Success((t, |SpacedToken(t, p)|))
  {
    hide FindFrom, Classify, Trim, TokenWellFormed, Core;
    var core := Core(t, p.inner);
    var tag := p.before + core + p.after;
    var s := SpacedToken(t, p) + rest;
    CoreIsInside(t, p);
    CorePlain(t, p.inner);
    WhiteIsSpace(p.before);
    WhiteIsSpace(p.after);
    TrimPadded(p.before, core, p.after);
    ClassifyCore(t, p.inner);
    assert s == "{{" + tag + "}}" + rest;
    assert s[0..2] == "{{";
    FoundAt(s, "{{", 0, 0);
    forall j: nat | 2 <= j < 2 + |tag|
      ensures !OccursAt(s, "}}", j)
    {
      assert s[j] == tag[j - 2] && tag[j - 2] != '}';
      assert j + 2 <= |s| ==> s[j..j + 2][0] == s[j];
    }
    assert s[2 + |tag|..2 + |tag| + 2] == "}}";
    FoundAt(s, "}}", 2, 2 + |tag|);
    assert s[2..2 + |tag|] == tag;
  }

  lemma {:induction false} CoreIsInside(t: Token, p: Spacing)
    requires !t.TextToken?
    ensures SpacedToken(t, p) == "{{" + (p.before + Core(t, p.inner) + p.after) + "}}"
  {
  }

  lemma {:induction false} SpacedStart(ts: seq<Token>, ps: seq<Spacing>)
    requires |ts| == |ps| > 0 && !ts[0].TextToken?
    ensures "{{" <= SpacedTokens(ts, ps)
  {
    CoreIsInside(ts[0], ps[0]);
  }

  /** White space in tags does not matter to the lexer. */
  lemma {:induction false} LexSpaced(ts: seq<Token>, ps: seq<Spacing>)
    requires Printable(ts) && |ts| == |ps| && forall p :: p in ps ==> WhiteSpacing(p)
    ensures Lex(SpacedTokens(ts, ps)) == Success(ts)
    decreases |ts|
  {
    hide Lex, ReadToken, TokenWellFormed, Printable, SpacedToken, WhiteSpacing;
    if ts == [] {
      LexNothing();
    } else {
      var t, rest, tail := ts[0], ts[1..], ps[1..];
      PrintableTail(ts);
      if rest != [] && t.TextToken? {
        SpacedStart(rest, tail);
      }
      assert SpacedTokens(rest, tail) != "" ==> rest != [];
      ReadSpaced(t, ps[0], SpacedTokens(rest, tail));
      LexSpaced(rest, tail);
      LexCons(t, SpacedToken(t, ps[0]), SpacedTokens(rest, tail), rest);
      assert ts == [t] + rest;
    }
  }

  lemma {:induction false} ReadSpaced(t: Token, p: Spacing, rest: Text)
    requires TokenWellFormed(t) && WhiteSpacing(p)
    requires t.TextToken? && rest != "" ==> "{{" <= rest && CanFollow(t, YieldToken)
    ensures SpacedToken(t, p) + rest != ""
    ensures ReadToken(SpacedToken(t, p) + rest) == Success((t, |SpacedToken(t, p)|))
  {
    hide ReadToken, FindFrom;
    if t.TextToken? {
      ReadPrintedText(t.text, rest);
    } else {
      CoreIsInside(t, p);
      ReadSpacedTag(t, p, rest);
    }
  }

  /** Main result: a well-formed tree, written with whatever white space in its tags, compiles to
      exactly its flattening. */
  lemma {:induction false} ParseSpaced(ns: seq<Node>, ps: seq<Spacing>)
    requires WellFormed(ns) && |TokensOf(ns)| == |ps| && forall p :: p in ps ==> WhiteSpacing(p)
    ensures ParseTemplate(SpacedTokens(TokensOf(ns), ps)) == Success(Flatten(ns, 0))
  {
    LexSpaced(TokensOf(ns), ps);
    ParseIsFlattening(SpacedTokens(TokensOf(ns), ps), Flatten(ns, 0));
  }

  // ---------- errors ----------

  /** A tag can stand right behind this forest. */
  predicate TagCanFollow(ts: seq<Token>) {
    ts != [] ==> CanFollow(ts[|ts| - 1], YieldToken)
  }

  lemma {:induction false} ParsePrefix(ts: seq<Token>, rest: Text, offset: nat, st: ParserState)
    requires StackInProgram(st) && Printable(ts) && TagCanFollow(ts) && "{{" <= rest
    requires RunTokens(ts, st).Success?
    ensures ParseFrom(PrintTokens(ts) + rest, offset, st)
         == ParseFrom(rest, offset + |PrintTokens(ts)|, RunTokens(ts, st).value)
    decreases |ts|
  {
    hide ReadToken, Step, TokenWellFormed, Printable, PrintToken, CanFollow;
    if ts == [] {
      assert PrintTokens(ts) + rest == rest;
    } else {
      var t, tail := ts[0], ts[1..];
      PrintableTail(ts);
      var after := PrintTokens(tail) + rest;
      assert PrintTokens(ts) + rest == PrintToken(t) + after;
      TagBehind(ts, rest);
      ReadPrinted(t, after);
      assert (PrintToken(t) + after)[|PrintToken(t)|..] == after;
      ParsePrefix(tail, rest, offset + |PrintToken(t)|, Step(st, t).value);
    }
  }

  lemma {:induction false} TagBehind(ts: seq<Token>, rest: Text)
    requires ts != [] && Printable(ts) && TagCanFollow(ts) && "{{" <= rest
    ensures ts[0].TextToken? ==> CanFollow(ts[0], YieldToken) && "{{" <= PrintTokens(ts[1..]) + rest
    ensures TagCanFollow(ts[1..])
  {
    hide TokenWellFormed;
    if |ts| > 1 {
      assert CanFollow(ts[0], ts[1]);
      if ts[0].TextToken? {
        PrintedTagStart(ts[1..]);
      }
    } else {
      assert PrintTokens(ts[1..]) + rest == rest;
    }
  }

  /** Behind a well-formed forest the parser stands with its flattening and as many open sections
      as before. */
  lemma {:induction false} ParseBehindForest(ns: seq<Node>, rest: Text, offset: nat, st: ParserState)
    requires StackInProgram(st) && WellFormed(ns) && TagCanFollow(TokensOf(ns)) && "{{" <= rest
    ensures StackInProgram(Extend(st, Flatten(ns, |st.program|)))
    ensures ParseFrom(Print(ns) + rest, offset, st)
         == ParseFrom(rest, offset + |Print(ns)|, Extend(st, Flatten(ns, |st.program|)))
  {
    hide ParseFrom, TokensOf, Flatten, Printable, CanFollow, PrintTokens, Extend;
    RunForest(ns, [], st);
    assert TokensOf(ns) + [] == TokensOf(ns);
    var end := Extend(st, Flatten(ns, |st.program|));
    assert RunTokens([], end) == Success(end);
    hide RunTokens, TagCanFollow;
    ParsePrefix(TokensOf(ns), rest, offset, st);
  }

  lemma {:induction false} ReadAnyTag(tag: Text, rest: Text)
    requires '}' !in tag
    ensures ReadToken("{{" + tag + "}}" + rest)
         == match Classify(Trim(tag))
            case Failure(kind) => Failure(kind)
            case Success(t) => Success((t, |tag| + 4))
  {
    hide FindFrom, Classify, Trim;
    var s := "{{" + tag + "}}" + rest;
    assert s[0..2] == "{{";
    FoundAt(s, "{{", 0, 0);
    forall j: nat | 2 <= j < 2 + |tag|
      ensures !OccursAt(s, "}}", j)
    {
      assert s[j] == tag[j - 2] && tag[j - 2] in tag;
      assert j + 2 <= |s| ==> s[j..j + 2][0] == s[j];
    }
    assert s[2 + |tag|..2 + |tag| + 2] == "}}";
    FoundAt(s, "}}", 2, 2 + |tag|);
    assert s[2..2 + |tag|] == tag;
  }

  /** One token of a parse: an error in reading it, an error in acting on it, or the rest. */
  lemma {:induction false} ParseOne(s: Text, offset: nat, st: ParserState)
    requires s != "" && StackInProgram(st)
    ensures ParseFrom(s, offset, st)
         == match ReadToken(s)
            case Failure(kind) => Failure(ParseError(kind, offset))
            case Success((t, n)) =>
              if Step(st, t).Failure? then Failure(ParseError(Step(st, t).error, offset))
              else ParseFrom(s[n..], offset + n, Step(st, t).value)
  {
    hide ReadToken, Step;
  }

  lemma {:induction false} ClassifyErrors(core: Text)
    ensures (var r := Classify(core);
             var name := if core == "" then "" else Trim(core[1..]);
             && (core == "" ==> r == Failure(EmptyTag))
             && (core != "" && core[0] in {'#', '^'} && !DottedName(name) ==> r == Failure(InvalidSectionName))
             && (core != "" && core[0] == '/' ==>
                   r == Failure(UnexpectedClose) || (r.Success? && r.value == CloseToken(name)))
             && (core != "" && core[0] == '>' && !SlashedName(name) ==> r == Failure(InvalidPartialPath))
             && (core != "" && core[0] !in {'#', '^', '/', '>'} && !DottedName(core) ==>
                   r == Failure(InvalidExpression)))
  {
    var name := if core == "" then "" else Trim(core[1..]);
    VariablePathIsDottedName(name);
    VariablePathIsDottedName(core);
    ViewPathIsSlashedName(name);
    YieldIsDotted();
    hide Trim, DottedName, SlashedName, IsVariablePath, IsViewPath;
    assert "yield"[0] == 'y';
  }

  /** Main result: behind any well-formed forest, each malformed tag is reported as what it is, at
      the place where its braces open. */
  lemma {:induction false} TagErrors(ns: seq<Node>, tag: Text, rest: Text)
    requires WellFormed(ns) && TagCanFollow(TokensOf(ns)) && '}' !in tag
    ensures (var r := ParseTemplate(Print(ns) + ("{{" + tag + "}}" + rest));
             var core := Trim(tag);
             var name := if core == "" then "" else Trim(core[1..]);
             && (core == "" ==> r == Failure(ParseError(EmptyTag, |Print(ns)|)))
             && (core != "" && core[0] in {'#', '^'} && !DottedName(name) ==>
                   r == Failure(ParseError(InvalidSectionName, |Print(ns)|)))
             && (core != "" && core[0] == '/' ==> r == Failure(ParseError(UnexpectedClose, |Print(ns)|)))
             && (core != "" && core[0] == '>' && !SlashedName(name) ==>
                   r == Failure(ParseError(InvalidPartialPath, |Print(ns)|)))
             && (core != "" && core[0] !in {'#', '^', '/', '>'} && !DottedName(core) ==>
                   r == Failure(ParseError(InvalidExpression, |Print(ns)|))))
  {
    hide Trim, DottedName, SlashedName, Classify, Flatten, Print, WellFormed, TokensOf, TagCanFollow, ReadToken,
         ParseFrom, TokenWellFormed;
    var source := "{{" + tag + "}}" + rest;
    BracesFirst(tag, rest);
    ParseBehindForest(ns, source, 0, START);
    ReadAnyTag(tag, rest);
    ClassifyErrors(Trim(tag));
    ParseOne(source, |Print(ns)|, Extend(START, Flatten(ns, 0)));
  }

  lemma {:induction false} BracesFirst(tag: Text, rest: Text)
    ensures "{{" <= "{{" + tag + "}}" + rest && "{{" <= "{{" + tag && "{{" + tag + "}}" + rest != ""
  {
  }

  lemma {:induction false} YieldIsDotted()
    ensures DottedName("yield")
  {
  }

  /** Main result: a tag that is not closed is reported where its braces open, a section that is not
      closed at the end of the source, and a section closed by another name where that stands. */
  lemma {:induction false} NestingErrors(ns: seq<Node>, body: seq<Node>, inverse: bool, name: Text, other: Text,
                                         text: Text, rest: Text)
    requires WellFormed(ns) && TagCanFollow(TokensOf(ns)) && WellFormed(body) && TagCanFollow(TokensOf(body))
    requires DottedName(name) && DottedName(other) && name != other
    requires forall j: nat :: !OccursAt(text, "}}", j)
    ensures ParseTemplate(Print(ns) + ("{{" + text)) == Failure(ParseError(UnclosedTag, |Print(ns)|))
    ensures (var open := PrintToken(OpenToken(inverse, name));
             ParseTemplate(Print(ns) + (open + (Print(body) + ("{{" + ("/" + other) + "}}" + rest))))
             == Failure(ParseError(MismatchedClose, |Print(ns)| + |open| + |Print(body)|)))
  {
    VariablePathIsDottedName(name);
    VariablePathIsDottedName(other);
    hide DottedName, IsVariablePath, Flatten, Print, WellFormed, TokensOf, TagCanFollow;
    UnclosedTagFails(ns, text);
    MismatchFails(ns, body, inverse, name, other, rest);
  }

  lemma {:induction false} ReadUnclosed(text: Text)
    requires forall j: nat :: !OccursAt(text, "}}", j)
    ensures ReadToken("{{" + text) == Failure(UnclosedTag)
  {
    hide FindFrom, Classify, Trim;
    var source := "{{" + text;
    assert source[0..2] == "{{";
    FoundAt(source, "{{", 0, 0);
    forall j: nat | 2 <= j
      ensures !OccursAt(source, "}}", j)
    {
      assert !OccursAt(text, "}}", j - 2);
      assert j + 2 <= |source| ==> source[j..j + 2] == text[j - 2..j];
    }
    assert FindFrom(source, "}}", 2).None?;
  }

  lemma {:induction false} UnclosedTagFails(ns: seq<Node>, text: Text)
    requires WellFormed(ns) && TagCanFollow(TokensOf(ns)) && forall j: nat :: !OccursAt(text, "}}", j)
    ensures ParseTemplate(Print(ns) + ("{{" + text)) == Failure(ParseError(UnclosedTag, |Print(ns)|))
  {
    hide Flatten, Print, WellFormed, TokensOf, ReadToken, ParseFrom, OccursAt;
    var source := "{{" + text;
    BracesFirst(text, "");
    ParseBehindForest(ns, source, 0, START);
    ReadUnclosed(text);
    ParseOne(source, |Print(ns)|, Extend(START, Flatten(ns, 0)));
  }

  lemma {:induction false} MismatchFails(ns: seq<Node>, body: seq<Node>, inverse: bool, name: Text, other: Text,
                                         rest: Text)
    requires WellFormed(ns) && TagCanFollow(TokensOf(ns)) && WellFormed(body) && TagCanFollow(TokensOf(body))
    requires IsVariablePath(name) && IsVariablePath(other) && name != other
    ensures (var open := PrintToken(OpenToken(inverse, name));
             ParseTemplate(Print(ns) + (open + (Print(body) + ("{{" + ("/" + other) + "}}" + rest))))
             == Failure(ParseError(MismatchedClose, |Print(ns)| + |open| + |Print(body)|)))
  {
    hide ReadToken, Flatten, Print, WellFormed, TokensOf, TagCanFollow, IsVariablePath, ParseFrom;
    var close := "{{" + ("/" + other) + "}}";
    var tail := Print(body) + (close + rest);
    BracesFirst("/" + other, rest);
    OpenSectionParses(ns, inverse, name, tail);
    var begun := Begun(ns, inverse, name);
    ParseBehindForest(body, close + rest, |Print(ns)| + |PrintToken(OpenToken(inverse, name))|, begun);
    ReadPrintedTag(CloseToken(other), rest);
    hide PrintToken;
    ParseOne(close + rest, |Print(ns)| + |PrintToken(OpenToken(inverse, name))| + |Print(body)|,
             Extend(begun, Flatten(body, |begun.program|)));
  }

  /** The parser behind a forest and an opening tag. */
  function Begun(ns: seq<Node>, inverse: bool, name: Text): (st: ParserState)
    ensures StackInProgram(st) && st.sections != [] && st.sections[|st.sections| - 1].name == name
  {
    Step(Extend(START, Flatten(ns, 0)), OpenToken(inverse, name)).value
  }

  lemma {:induction false} OpenSectionParses(ns: seq<Node>, inverse: bool, name: Text, tail: Text)
    requires WellFormed(ns) && TagCanFollow(TokensOf(ns)) && IsVariablePath(name)
    ensures (var open := PrintToken(OpenToken(inverse, name));
             ParseTemplate(Print(ns) + (open + tail))
             == ParseFrom(tail, |Print(ns)| + |open|, Begun(ns, inverse, name)))
  {
    hide ReadToken, Flatten, Print, WellFormed, TokensOf, TagCanFollow, IsVariablePath, ParseFrom;
    var t := OpenToken(inverse, name);
    BracesFirst(TagText(t), tail);
    ReadPrintedTag(t, tail);
    hide TagText;
    ParseBehindForest(ns, PrintToken(t) + tail, 0, START);
    assert (PrintToken(t) + tail)[|PrintToken(t)|..] == tail;
    ParseOne(PrintToken(t) + tail, |Print(ns)|, Extend(START, Flatten(ns, 0)));
  }

  /** A section that is never closed is reported at the end. */
  lemma {:induction false} UnclosedSectionFails(ns: seq<Node>, inverse: bool, name: Text, body: seq<Node>)
    requires WellFormed(ns) && TagCanFollow(TokensOf(ns)) && DottedName(name) && WellFormed(body)
    ensures (var source := Print(ns) + (PrintToken(OpenToken(inverse, name)) + Print(body));
             ParseTemplate(source) == Failure(ParseError(UnclosedSection, |source|)))
  {
    VariablePathIsDottedName(name);
    hide Print, WellFormed, TokensOf, TagCanFollow, IsVariablePath, DottedName, ParseFrom, ParseTemplate, Flatten,
         PrintToken;
    OpenSectionParses(ns, inverse, name, Print(body));
    ParseForestEnd(body, |Print(ns)| + |PrintToken(OpenToken(inverse, name))|, Begun(ns, inverse, name));
  }

  lemma {:induction false} ParseForestEnd(ns: seq<Node>, offset: nat, st: ParserState)
    requires StackInProgram(st) && WellFormed(ns)
    ensures ParseFrom(Print(ns), offset, st)
         == if st.sections == [] then Success(Extend(st, Flatten(ns, |st.program|)).program)
            else Failure(ParseError(UnclosedSection, offset + |Print(ns)|))
  {
    hide ParseFrom, TokensOf, Flatten, TokenWellFormed, CanFollow, PrintTokens, Printable, Step;
    RunForest(ns, [], st);
    assert TokensOf(ns) + [] == TokensOf(ns);
    RunNothing(Extend(st, Flatten(ns, |st.program|)));
    hide RunTokens;
    ParseTokensEnd(TokensOf(ns), offset, st);
  }

  lemma {:induction false} ParseTokensEnd(ts: seq<Token>, offset: nat, st: ParserState)
    requires StackInProgram(st) && Printable(ts) && RunTokens(ts, st).Success?
    ensures (var end := RunTokens(ts, st).value;
             ParseFrom(PrintTokens(ts), offset, st)
             == if end.sections == [] then Success(end.program)
                else Failure(ParseError(UnclosedSection, offset + |PrintTokens(ts)|)))
    decreases |ts|
  {
    hide ReadToken, Step, TokenWellFormed, Printable, PrintToken, CanFollow;
    if ts != [] {
      var t, tail := ts[0], ts[1..];
      PrintableTail(ts);
      var after := PrintTokens(tail);
      if tail != [] && t.TextToken? {
        TextThenTag(ts);
      }
      assert after != "" ==> tail != [];
      ReadPrinted(t, after);
      assert (PrintToken(t) + after)[|PrintToken(t)|..] == after;
      ParseTokensEnd(tail, offset + |PrintToken(t)|, Step(st, t).value);
    }
  }

  lemma {:induction false} TextThenTag(ts: seq<Token>)
    requires |ts| > 1 && ts[0].TextToken? && CanFollow(ts[0], ts[1])
    ensures "{{" <= PrintTokens(ts[1..]) && CanFollow(ts[0], YieldToken)
  {
    PrintedTagStart(ts[1..]);
  }
}
