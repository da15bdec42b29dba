/** Pages in the layout: view_render_with_layout of src/view/view.c on template trees. */
module Layouts {
  import opened Texts
  import opened Templates
  import opened Views
  import opened TemplateTheorems
  import opened RenderTheorems

  /** What a page in the layout means, by the trees: an empty page leaves the layout nothing to
      yield. */
  function EvalPage(data: Data, views: Library<seq<Node>>, path: Text): Outcome {
    var page := EvalView(data, views, path);
    if page.error.Some? then Fail(page.error.value)
    else
      match Load(views, LAYOUT)
      case Failure(ViewNotFound) => page
      case Failure(e) => Fail(e)
      case Success(ns) => Eval(data, views, ns, None, if page.text == "" then None else Some(page.text), 0)
  }

  lemma {:induction false} RenderPageIsEval(data: Data, views: Library<seq<Node>>, path: Text)
    ensures RenderWithLayout(data, FlattenLibrary(views), path) == EvalPage(data, views, path)
  {
    hide RenderToString, EvalView, Run, Eval, Load;
    var page := EvalView(data, views, path);
    RenderViewIsEval(data, views, path);
    LoadFlattened(views, LAYOUT);
    if Load(views, LAYOUT).Success? {
      RunWholeIsEval(data, views, Load(views, LAYOUT).value, None,
                     if page.text == "" then None else Some(page.text), 0);
    }
  }

  /** Main result: for all sources and data, a page rendered in its layout is what the trees of
      the sources evaluate to. */
  lemma {:induction false} RenderSourcesPageIsEval(data: Data, sources: Sources, views: Library<seq<Node>>, path: Text)
    requires SpellsAll(sources, views)
    ensures RenderWithLayout(data, ParseLibrary(sources), path) == EvalPage(data, views, path)
  {
    hide RenderWithLayout, EvalPage, SpellsAll;
    LibraryIsFlattening(sources, views);
    RenderPageIsEval(data, views, path);
  }

  /** The checks for malformed programs do not fire in layouts either. */
  lemma {:induction false} ParsedPagesNest(data: Data, sources: Sources, path: Text)
    ensures !LayoutFault(RenderWithLayout(data, ParseLibrary(sources), path))
  {
    hide RenderWithLayout, RenderToString, EvalView, Eval, Load;
    var views := SourcesSpell(sources);
    RenderSourcesPageIsEval(data, sources, views, path);
    ParsedProgramsNest(data, sources, path);
    RenderSourcesIsEval(data, sources, views, path);
    var page := EvalView(data, views, path);
    if Load(views, LAYOUT).Success? {
      EvalHasNoLayoutFault(data, views, Load(views, LAYOUT).value, None,
                           if page.text == "" then None else Some(page.text), 0);
    } else {
      LoadErrors(views, LAYOUT);
    }
  }

  // ---------- does the layout come to a yield? ----------

  /** Evaluating the forest with a page to yield comes to a yield before anything fails. */
  predicate Yields(data: Data, views: Library<seq<Node>>, ns: seq<Node>, scope: Option<Record>, page: Text, depth: nat)
    requires depth <= MAX_NESTING
    decreases ns, 1, 0
  {
    ns != []
    && (NodeYields(data, views, ns[0], scope, page, depth)
        || (EvalNode(data, views, ns[0], scope, Some(page), depth).error.None?
            && Yields(data, views, ns[1..], scope, page, depth)))
  }

  /** Partials are rendered without the page, so only sections can hide a yield. */
  predicate NodeYields(data: Data, views: Library<seq<Node>>, n: Node, scope: Option<Record>, page: Text, depth: nat)
    requires depth <= MAX_NESTING
    decreases n, 3, 0
  {
    match n
    case YieldNode => true
    case SectionNode(inverse, path, body) =>
      (match Resolve(data, path, scope)
       case None => false
       case Some(v) =>
         Truthy(v) != inverse
         && if !v.CollectionValue? || inverse then Yields(data, views, body, scope, page, depth)
            else v.usable && ItemsYield(data, views, body, v.items, page, depth))
    case _ => false
  }

  predicate ItemsYield(data: Data, views: Library<seq<Node>>, body: seq<Node>, items: seq<Record>, page: Text,
                       depth: nat)
    requires depth <= MAX_NESTING
    decreases body, 2, |items|
  {
    items != []
    && (Yields(data, views, body, Some(items[0]), page, depth)
        || (Eval(data, views, body, Some(items[0]), Some(page), depth).error.None?
            && ItemsYield(data, views, body, items[1..], page, depth)))
  }

  /** Without a page, an evaluation that comes to a yield fails there, behind the text that with
      the page stands in front of it; any other is the same. */
  predicate YieldDecides(reached: bool, bare: Outcome, full: Outcome, page: Text) {
    if reached then bare.error == Some(YieldUnavailable) && bare.text + page <= full.text else bare == full
  }

  lemma {:induction false} ThenDecides(first: bool, bare: Outcome, full: Outcome, second: bool, bare': Outcome,
                                       full': Outcome, page: Text)
    requires YieldDecides(first, bare, full, page) && YieldDecides(second, bare', full', page)
    ensures YieldDecides(first || (full.error.None? && second), Then(bare, bare'), Then(full, full'), page)
  {
    if first {
      assert full.text <= full.text + full'.text;
    } else if second {
      assert bare.text + (bare'.text + page) == bare.text + bare'.text + page;
      assert bare.text + (bare'.text + page) <= full.text + full'.text;
    }
  }

  lemma {:induction false} NothingDecides(page: Text)
    ensures YieldDecides(false, DONE, DONE, page)
  {
  }

  lemma {:induction false} YieldsDecide(data: Data, views: Library<seq<Node>>, ns: seq<Node>, scope: Option<Record>,
                                        page: Text, depth: nat)
    requires depth <= MAX_NESTING
    ensures YieldDecides(Yields(data, views, ns, scope, page, depth), Eval(data, views, ns, scope, None, depth),
                         Eval(data, views, ns, scope, Some(page), depth), page)
    decreases ns, 1, 0
  {
    hide EvalNode, NodeYields, YieldDecides, Then;
    if ns == [] {
      NothingDecides(page);
    } else {
      NodeYieldsDecide(data, views, ns[0], scope, page, depth);
      YieldsDecide(data, views, ns[1..], scope, page, depth);
      ThenDecides(NodeYields(data, views, ns[0], scope, page, depth),
                  EvalNode(data, views, ns[0], scope, None, depth),
                  EvalNode(data, views, ns[0], scope, Some(page), depth),
                  Yields(data, views, ns[1..], scope, page, depth),
                  Eval(data, views, ns[1..], scope, None, depth),
                  Eval(data, views, ns[1..], scope, Some(page), depth), page);
    }
  }

  lemma {:induction false} NodeYieldsDecide(data: Data, views: Library<seq<Node>>, n: Node, scope: Option<Record>,
                                            page: Text, depth: nat)
    requires depth <= MAX_NESTING
    ensures YieldDecides(NodeYields(data, views, n, scope, page, depth), EvalNode(data, views, n, scope, None, depth),
                         EvalNode(data, views, n, scope, Some(page), depth), page)
    decreases n, 3, 0
  {
    hide Eval, EvalItems, Yields, ItemsYield, Resolve, ShowVariable, Load;
    if n.SectionNode? {
      YieldsDecide(data, views, n.body, scope, page, depth);
      var value := Resolve(data, n.path, scope);
      if value.Some? && value.value.CollectionValue? {
        ItemsYieldDecide(data, views, n.body, value.value.items, page, depth);
      }
    }
  }

  lemma {:induction false} ItemsYieldDecide(data: Data, views: Library<seq<Node>>, body: seq<Node>, items: seq<Record>,
                                            page: Text, depth: nat)
    requires depth <= MAX_NESTING
    ensures YieldDecides(ItemsYield(data, views, body, items, page, depth),
                         EvalItems(data, views, body, items, None, depth),
                         EvalItems(data, views, body, items, Some(page), depth), page)
    decreases body, 2, |items|
  {
    hide Eval, Yields, YieldDecides, Then;
    if items == [] {
      NothingDecides(page);
    } else {
      YieldsDecide(data, views, body, Some(items[0]), page, depth);
      ItemsYieldDecide(data, views, body, items[1..], page, depth);
      ThenDecides(Yields(data, views, body, Some(items[0]), page, depth),
                  Eval(data, views, body, Some(items[0]), None, depth),
                  Eval(data, views, body, Some(items[0]), Some(page), depth),
                  ItemsYield(data, views, body, items[1..], page, depth),
                  EvalItems(data, views, body, items[1..], None, depth),
                  EvalItems(data, views, body, items[1..], Some(page), depth), page);
    }
  }

  // ---------- the promise of the layout ----------

  /** The page in the layout as it is promised: `{{yield}}` stands for the page, empty or not. */
  function PromisedPage(data: Data, views: Library<seq<Node>>, path: Text): Outcome {
    var page := EvalView(data, views, path);
    if page.error.Some? then Fail(page.error.value)
    else
      match Load(views, LAYOUT)
      case Failure(ViewNotFound) => page
      case Failure(e) => Fail(e)
      case Success(ns) => Eval(data, views, ns, None, Some(page.text), 0)
  }

  /** The layout evaluates alike whether it is given nothing or an empty page to yield. */
  predicate LayoutIgnoresEmptyPage(data: Data, views: Library<seq<Node>>) {
    Load(views, LAYOUT).Success? ==>
      (var ns := Load(views, LAYOUT).value;
       Eval(data, views, ns, None, None, 0) == Eval(data, views, ns, None, Some(""), 0))
  }

  /** The layout comes to a yield when it is given an empty page. */
  predicate LayoutYields(data: Data, views: Library<seq<Node>>) {
    Load(views, LAYOUT).Success? && Yields(data, views, Load(views, LAYOUT).value, None, "", 0)
  }

  /** Main result: for every page and every layout, the promise is kept exactly when the page does
      not render, is not empty, or meets a layout that evaluates alike without a page. */
  lemma {:induction false} LayoutKeepsPromise(data: Data, views: Library<seq<Node>>, path: Text)
    ensures RenderWithLayout(data, FlattenLibrary(views), path) == PromisedPage(data, views, path)
       <==> || EvalView(data, views, path).error.Some?
            || EvalView(data, views, path).text != ""
            || LayoutIgnoresEmptyPage(data, views)
  {
    hide RenderWithLayout, EvalView, Eval, Load;
    RenderPageIsEval(data, views, path);
  }

  /** The page renders to nothing, and the layout comes to a yield, be it at top level or in a
      section. */
  predicate PageMissed(data: Data, views: Library<seq<Node>>, path: Text) {
    EvalView(data, views, path) == DONE && LayoutYields(data, views)
  }

  /** Main result: a page is as promised unless it is empty and the layout comes to a yield; then
      rendering ends at the first yield, with what the promised page begins with. */
  lemma {:induction false} LayoutShowsPageIffNotEmpty(data: Data, views: Library<seq<Node>>, path: Text)
    ensures (var shown := RenderWithLayout(data, FlattenLibrary(views), path);
             var promised := PromisedPage(data, views, path);
             && (!PageMissed(data, views, path) ==> shown == promised)
             && (PageMissed(data, views, path) ==>
                   shown.error == Some(YieldUnavailable) && shown.text <= promised.text)
             && (promised.error.None? ==> (shown == promised <==> !PageMissed(data, views, path))))
  {
    hide RenderWithLayout, EvalView, Eval, Load, Yields;
    RenderPageIsEval(data, views, path);
    if Load(views, LAYOUT).Success? {
      YieldsDecide(data, views, Load(views, LAYOUT).value, None, "", 0);
    }
  }

  const EMPTY_PAGE: Sources := map["page" := "", LAYOUT := "{{yield}}"]
  const EMPTY_PAGE_TREES: Library<seq<Node>> := map["page" := Good([]), LAYOUT := Good([YieldNode])]

  /** The failing case, in the smallest instance: an empty page in a layout that is one yield. */
  lemma {:induction false} EmptyPageBreaksLayout()
    ensures SpellsAll(EMPTY_PAGE, EMPTY_PAGE_TREES)
    ensures RenderToString(map[], ParseLibrary(EMPTY_PAGE), "page") == DONE
    ensures PromisedPage(map[], EMPTY_PAGE_TREES, "page") == DONE
    ensures RenderWithLayout(map[], ParseLibrary(EMPTY_PAGE), "page").error == Some(YieldUnavailable)
  {
    hide RenderToString, RenderWithLayout, EvalView, PromisedPage, Load, ParseLibrary, FlattenLibrary, Lex;
    EmptyAndYieldSources();
    EmptyPageLoads();
    EmptyPageInYieldLayout(EMPTY_PAGE_TREES);
    hide SpellsAll;
    LibraryIsFlattening(EMPTY_PAGE, EMPTY_PAGE_TREES);
    RenderViewIsEval(map[], EMPTY_PAGE_TREES, "page");
  }

  lemma {:induction false} EmptyPageLoads()
    ensures Load(EMPTY_PAGE_TREES, "page") == Success([]) && Load(EMPTY_PAGE_TREES, LAYOUT) == Success([YieldNode])
  {
    LayoutPaths();
    hide IsViewPath;
  }

  lemma {:induction false} EmptyAndYieldSources()
    ensures Lex("") == Success(TokensOf([])) && Lex("{{yield}}") == Success(TokensOf([YieldNode]))
  {
    hide Lex, CanFollow;
    LexPrinted([]);
    LexPrinted([YieldToken]);
    assert [YieldToken][1..] == [] && [YieldNode][1..] == [];
    assert TokensOf([YieldNode]) == [YieldToken] + TokensOf([]) == [YieldToken];
    assert PrintTokens([YieldToken]) == "{{yield}}";
  }

  lemma {:induction false} EmptyPageInYieldLayout(views: Library<seq<Node>>)
    requires Load(views, "page") == Success([]) && Load(views, LAYOUT) == Success([YieldNode])
    ensures EvalView(map[], views, "page") == DONE
    ensures PromisedPage(map[], views, "page") == DONE
    ensures RenderWithLayout(map[], FlattenLibrary(views), "page").error == Some(YieldUnavailable)
  {
    hide Load, Run;
    assert [YieldNode][1..] == [];
    RenderViewIsEval(map[], views, "page");
    LoadFlattened(views, LAYOUT);
    RunWholeIsEval(map[], views, [YieldNode], None, None, 0);
  }

  lemma {:induction false} LayoutPaths()
    ensures IsViewPath("page") && IsViewPath(LAYOUT)
  {
    hide FindChar, IsViewPath;
    SegmentIsPath("page");
    SegmentIsPath("layouts");
    SegmentIsPath("application");
    assert LAYOUT == "layouts" + ['/'] + "application";
    hide IsPathSegment;
    JoinedPath("layouts", "application");
  }

  lemma {:induction false} JoinedPath(first: Text, second: Text)
    requires IsPathSegment(first) && IsViewPath(second)
    ensures IsViewPath(first + ['/'] + second)
  {
    hide FindChar;
    var s := first + ['/'] + second;
    assert s[..|first|] == first && s[|first| + 1..] == second;
    FoundCharAt(s, '/', |first|);
  }

  lemma {:induction false} SegmentIsPath(s: Text)
    requires IsPathSegment(s)
    ensures IsViewPath(s) && FindChar(s, '/').None?
  {
  }
}
