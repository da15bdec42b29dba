/** Rendering a flat program is evaluating the tree it was flattened from; and, from source
    texts, rendering what the parser produced is evaluating what the sources spell. */
module RenderTheorems {
  import opened Texts
  import opened Templates
  import opened TemplateParser
  import opened TemplateTheorems
  import opened Views

  function FlattenLoaded(v: Loaded<seq<Node>>): Loaded<Program> {
    match v
    case Good(ns) => Good(Flatten(ns, 0))
    case Broken => Broken
  }

  function FlattenLibrary(views: Library<seq<Node>>): Library<Program> {
    map path | path in views :: FlattenLoaded(views[path])
  }

  /** `ns` is laid out in `p` from index `i` on. */
  predicate LaidOut(ns: seq<Node>, p: Program, i: nat) {
    i + Size(ns) <= |p| && p[i..i + Size(ns)] == Flatten(ns, i)
  }

  lemma {:induction false} LaidOutSplit(ns: seq<Node>, p: Program, i: nat)
    requires ns != [] && LaidOut(ns, p, i)
    ensures i + SizeNode(ns[0]) <= |p| && p[i..i + SizeNode(ns[0])] == FlattenNode(ns[0], i)
    ensures LaidOut(ns[1..], p, i + SizeNode(ns[0]))
  {
    hide FlattenNode, SizeNode;
    var head, tail := FlattenNode(ns[0], i), Flatten(ns[1..], i + SizeNode(ns[0]));
    var whole := p[i..i + Size(ns)];
    assert whole == head + tail;
    assert p[i..i + |head|] == whole[..|head|];
    assert p[i + |head|..i + Size(ns)] == whole[|head|..];
  }

  lemma {:induction false} LaidOutSection(n: Node, p: Program, i: nat)
    requires n.SectionNode? && i + SizeNode(n) <= |p| && p[i..i + SizeNode(n)] == FlattenNode(n, i)
    ensures p[i] == Instruction(SectionKindOf(n.inverse), n.path, i + 1 + Size(n.body))
    ensures LaidOut(n.body, p, i + 1)
  {
    var whole := p[i..i + SizeNode(n)];
    assert p[i] == whole[0];
    assert p[i + 1..i + 1 + Size(n.body)] == whole[1..];
  }

  // ---------- one run of the interpreter ----------

  /** From index `i`, the interpreter does what the laid-out forest means and then goes on. */
  lemma {:induction false} RunForestIsEval(data: Data, views: Library<seq<Node>>, p: Program, i: nat, ns: seq<Node>,
                                           end: nat, scope: Option<Record>, yielded: Option<Text>, depth: nat)
    requires LaidOut(ns, p, i) && i + Size(ns) <= end <= |p| && depth <= MAX_NESTING
    ensures RunFrom(data, FlattenLibrary(views), p, i, end, scope, yielded, depth)
         == Then(Eval(data, views, ns, scope, yielded, depth),
                 RunFrom(data, FlattenLibrary(views), p, i + Size(ns), end, scope, yielded, depth))
    decreases MAX_NESTING - depth, ns, 1, 0
  {
    hide RunFrom, EvalNode, LaidOut, SizeNode, Then;
    var flat := FlattenLibrary(views);
    var after := RunFrom(data, flat, p, i + Size(ns), end, scope, yielded, depth);
    ThenAssociative(after, DONE, DONE);
    if ns != [] {
      LaidOutSplit(ns, p, i);
      var next := i + SizeNode(ns[0]);
      RunNodeIsEval(data, views, p, i, ns[0], end, scope, yielded, depth);
      RunForestIsEval(data, views, p, next, ns[1..], end, scope, yielded, depth);
      ThenAssociative(EvalNode(data, views, ns[0], scope, yielded, depth),
                      Eval(data, views, ns[1..], scope, yielded, depth), after);
    }
  }

  lemma {:induction false} RunNodeIsEval(data: Data, views: Library<seq<Node>>, p: Program, i: nat, n: Node, end: nat,
                                         scope: Option<Record>, yielded: Option<Text>, depth: nat)
    requires i + SizeNode(n) <= end <= |p| && depth <= MAX_NESTING
    requires p[i..i + SizeNode(n)] == FlattenNode(n, i)
    ensures RunFrom(data, FlattenLibrary(views), p, i, end, scope, yielded, depth)
         == Then(EvalNode(data, views, n, scope, yielded, depth),
                 RunFrom(data, FlattenLibrary(views), p, i + SizeNode(n), end, scope, yielded, depth))
    decreases MAX_NESTING - depth, n, 3, 0
  {
    if n.SectionNode? {
      LaidOutSection(n, p, i);
      RunSectionIsEval(data, views, p, i, n, end, scope, yielded, depth);
    } else {
      assert p[i] == p[i..i + 1][0];
      if n.PartialNode? {
        RunPartialIsEval(data, views, n.path, scope, depth);
      }
    }
  }

  lemma {:induction false} RunPartialIsEval(data: Data, views: Library<seq<Node>>, path: Text, scope: Option<Record>,
                                            depth: nat)
    requires depth <= MAX_NESTING
    ensures RunPartial(data, FlattenLibrary(views), path, scope, depth)
         == EvalNode(data, views, PartialNode(path), scope, None, depth)
    decreases MAX_NESTING - depth, PartialNode(path), 2, 0
  {
    if depth < MAX_NESTING && Load(views, path).Success? {
      RunWholeIsEval(data, views, Load(views, path).value, scope, None, depth + 1);
    }
  }

  /** Main result: a flattened program renders to what its tree means, output and error alike. */
  lemma {:induction false} RunWholeIsEval(data: Data, views: Library<seq<Node>>, ns: seq<Node>, scope: Option<Record>,
                                          yielded: Option<Text>, depth: nat)
    requires depth <= MAX_NESTING
    ensures Run(data, FlattenLibrary(views), Flatten(ns, 0), 0, Size(ns), scope, yielded, depth)
         == Eval(data, views, ns, scope, yielded, depth)
    decreases MAX_NESTING - depth, ns, 2, 0
  {
    hide Eval;
    var p := Flatten(ns, 0);
    assert p[0..0 + Size(ns)] == p;
    RunForestIsEval(data, views, p, 0, ns, Size(ns), scope, yielded, depth);
    ThenAssociative(Eval(data, views, ns, scope, yielded, depth), DONE, DONE);
  }

  lemma {:induction false} RunSectionIsEval(data: Data, views: Library<seq<Node>>, p: Program, i: nat, n: Node,
                                            end: nat, scope: Option<Record>, yielded: Option<Text>, depth: nat)
    requires n.SectionNode? && i + SizeNode(n) <= end <= |p| && depth <= MAX_NESTING
    requires p[i] == Instruction(SectionKindOf(n.inverse), n.path, i + 1 + Size(n.body)) && LaidOut(n.body, p, i + 1)
    ensures RunFrom(data, FlattenLibrary(views), p, i, end, scope, yielded, depth)
         == Then(EvalNode(data, views, n, scope, yielded, depth),
                 RunFrom(data, FlattenLibrary(views), p, i + SizeNode(n), end, scope, yielded, depth))
    decreases MAX_NESTING - depth, n, 2, 0
  {
    hide Run, Eval, EvalItems, RunItems, LaidOut, Resolve, Truthy;
    var flat, stop := FlattenLibrary(views), i + 1 + Size(n.body);
    var value := Resolve(data, n.path, scope);
    if value.Some? && value.value.CollectionValue? {
      RunItemsIsEval(data, views, p, i + 1, n.body, value.value.items, yielded, depth);
    }
    RunBodyIsEval(data, views, p, i + 1, n.body, scope, yielded, depth);
  }

  lemma {:induction false} RunBodyIsEval(data: Data, views: Library<seq<Node>>, p: Program, start: nat, body: seq<Node>,
                                         scope: Option<Record>, yielded: Option<Text>, depth: nat)
    requires LaidOut(body, p, start) && depth <= MAX_NESTING
    ensures Run(data, FlattenLibrary(views), p, start, start + Size(body), scope, yielded, depth)
         == Eval(data, views, body, scope, yielded, depth)
    decreases MAX_NESTING - depth, body, 2, 0
  {
    hide Eval;
    RunForestIsEval(data, views, p, start, body, start + Size(body), scope, yielded, depth);
    ThenAssociative(Eval(data, views, body, scope, yielded, depth), DONE, DONE);
  }

  lemma {:induction false} RunItemsIsEval(data: Data, views: Library<seq<Node>>, p: Program, start: nat,
                                          body: seq<Node>, items: seq<Record>, yielded: Option<Text>, depth: nat)
    requires LaidOut(body, p, start) && depth <= MAX_NESTING
    ensures RunItems(data, FlattenLibrary(views), p, start, start + Size(body), items, yielded, depth)
         == EvalItems(data, views, body, items, yielded, depth)
    decreases MAX_NESTING - depth, body, 3, |items|
  {
    hide Run, Eval, LaidOut;
    if items != [] {
      RunBodyIsEval(data, views, p, start, body, Some(items[0]), yielded, depth);
      RunItemsIsEval(data, views, p, start, body, items[1..], yielded, depth);
    }
  }

  // ---------- from source texts ----------

  type Sources = map<Text, Text>

  function ParseView(source: Text): Loaded<Program> {
    match ParseTemplate(source)
    case Success(p) => Good(p)
    case Failure(_) => Broken
  }

  /** What the view loader makes of the template files. */
  function ParseLibrary(sources: Sources): Library<Program> {
    map path | path in sources :: ParseView(sources[path])
  }

  /** The tree a source spells. */
  ghost predicate Spells(source: Text, v: Loaded<seq<Node>>) {
    match v
    case Good(ns) => Lex(source) == Success(TokensOf(ns))
    case Broken => forall ns :: Lex(source) != Success(TokensOf(ns))
  }

  ghost predicate SpellsAll(sources: Sources, views: Library<seq<Node>>) {
    views.Keys == sources.Keys && forall path :: path in sources ==> Spells(sources[path], views[path])
  }

  /** Parsing gives the flattening of whatever the source spells. */
  lemma {:induction false} ParseViewIsFlattening(source: Text, v: Loaded<seq<Node>>)
    requires Spells(source, v)
    ensures ParseView(source) == FlattenLoaded(v)
  {
    hide ParseTemplate, Lex, TokensOf;
    if v.Good? {
      ParseIsFlattening(source, Flatten(v.content, 0));
      assert ParseTemplate(source) == Success(Flatten(v.content, 0));
    } else if ParseTemplate(source).Success? {
      ParseIsFlattening(source, ParseTemplate(source).value);
    }
  }

  /** Every source spells a tree or is broken, so the trees of a library always exist. */
  lemma {:induction false} SourcesSpell(sources: Sources) returns (views: Library<seq<Node>>)
    ensures SpellsAll(sources, views)
  {
    views := map path | path in sources :: SpelledBy(sources[path]);
  }

  ghost function SpelledBy(source: Text): (v: Loaded<seq<Node>>)
    ensures Spells(source, v)
  {
    if exists ns :: Lex(source) == Success(TokensOf(ns)) then
      var ns :| Lex(source) == Success(TokensOf(ns));
      Good(ns)
    else Broken
  }

  /** What a page means, by its tree. */
  function EvalView(data: Data, views: Library<seq<Node>>, path: Text): Outcome {
    match Load(views, path)
    case Failure(e) => Fail(e)
    case Success(ns) => Eval(data, views, ns, None, None, 0)
  }

  lemma {:induction false} LibraryIsFlattening(sources: Sources, views: Library<seq<Node>>)
    requires SpellsAll(sources, views)
    ensures ParseLibrary(sources) == FlattenLibrary(views)
  {
    forall path | path in sources
      ensures ParseView(sources[path]) == FlattenLoaded(views[path])
    {
      ParseViewIsFlattening(sources[path], views[path]);
    }
  }

  lemma {:induction false} LoadFlattened(views: Library<seq<Node>>, path: Text)
    ensures Load(FlattenLibrary(views), path)
         == match Load(views, path)
            case Failure(e) => Failure(e)
            case Success(ns) => Success(Flatten(ns, 0))
  {
  }

  lemma {:induction false} RenderViewIsEval(data: Data, views: Library<seq<Node>>, path: Text)
    ensures RenderToString(data, FlattenLibrary(views), path) == EvalView(data, views, path)
  {
    hide Run, Eval, Load;
    LoadFlattened(views, path);
    if Load(views, path).Success? {
      RunWholeIsEval(data, views, Load(views, path).value, None, None, 0);
    }
  }

  /** Main result, from the text of the templates to the text of the page: for all sources and
      data, rendering the parsed programs is evaluating the trees the sources spell. */
  lemma {:induction false} RenderSourcesIsEval(data: Data, sources: Sources, views: Library<seq<Node>>, path: Text)
    requires SpellsAll(sources, views)
    ensures RenderToString(data, ParseLibrary(sources), path) == EvalView(data, views, path)
  {
    LibraryIsFlattening(sources, views);
    RenderViewIsEval(data, views, path);
  }

  // ---------- checks that never fire ----------

  predicate LayoutFault(o: Outcome) {
    o.error == Some(InvalidJump) || o.error == Some(InvalidProgram)
  }

  lemma {:induction false} EvalHasNoLayoutFault(data: Data, views: Library<seq<Node>>, ns: seq<Node>,
                                                scope: Option<Record>, yielded: Option<Text>, depth: nat)
    requires depth <= MAX_NESTING
    ensures !LayoutFault(Eval(data, views, ns, scope, yielded, depth))
    decreases MAX_NESTING - depth, ns, 1, 0
  {
    if ns != [] {
      EvalNodeHasNoLayoutFault(data, views, ns[0], scope, yielded, depth);
      EvalHasNoLayoutFault(data, views, ns[1..], scope, yielded, depth);
    }
  }

  lemma {:induction false} EvalNodeHasNoLayoutFault(data: Data, views: Library<seq<Node>>, n: Node,
                                                    scope: Option<Record>, yielded: Option<Text>, depth: nat)
    requires depth <= MAX_NESTING
    ensures !LayoutFault(EvalNode(data, views, n, scope, yielded, depth))
    decreases MAX_NESTING - depth, n, 3, 0
  {
    match n
    case PartialNode(path) =>
      if depth < MAX_NESTING && Load(views, path).Success? {
        EvalHasNoLayoutFault(data, views, Load(views, path).value, scope, None, depth + 1);
      }
    case SectionNode(_, path, body) =>
      EvalHasNoLayoutFault(data, views, body, scope, yielded, depth);
      var value := Resolve(data, path, scope);
      if value.Some? && value.value.CollectionValue? {
        EvalItemsHaveNoLayoutFault(data, views, body, value.value.items, yielded, depth);
      }
    case _ =>
  }

  lemma {:induction false} EvalItemsHaveNoLayoutFault(data: Data, views: Library<seq<Node>>, body: seq<Node>,
                                                      items: seq<Record>, yielded: Option<Text>, depth: nat)
    requires depth <= MAX_NESTING
    ensures !LayoutFault(EvalItems(data, views, body, items, yielded, depth))
    decreases MAX_NESTING - depth, body, 2, |items|
  {
    if items != [] {
      EvalHasNoLayoutFault(data, views, body, Some(items[0]), yielded, depth);
      EvalItemsHaveNoLayoutFault(data, views, body, items[1..], yielded, depth);
    }
  }

  /** Programs that come from the parser nest their sections properly: the jump and program
      checks of the interpreter never fire, whatever the data and however partials nest. */
  lemma {:induction false} ParsedProgramsNest(data: Data, sources: Sources, path: Text)
    ensures !LayoutFault(RenderToString(data, ParseLibrary(sources), path))
  {
    hide Eval, Load, RenderToString;
    var views := SourcesSpell(sources);
    RenderSourcesIsEval(data, sources, views, path);
    if Load(views, path).Success? {
      EvalHasNoLayoutFault(data, views, Load(views, path).value, None, None, 0);
    } else {
      LoadErrors(views, path);
    }
  }

  lemma {:induction false} LoadErrors<T>(views: Library<T>, path: Text)
    ensures Load(views, path).Failure? ==> Load(views, path).error in {InvalidViewPath, ViewNotFound, ViewBroken}
  {
  }
}
