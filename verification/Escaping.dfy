/** Data cannot bring markup into a page: what the escaping of src/rendering/html.c promises, for
    whole renderings. */
module Escaping {
  import opened Texts
  import opened Numbers
  import opened Templates
  import opened Views
  import opened RenderTheorems
  import opened Layouts

  predicate IsMarkup(c: char) {
    c == '<' || c == '>' || c == '"' || c == '\''
  }

  // ---------- one value ----------

  lemma {:induction false} EscapedIsClean(s: Text, c: char)
    requires IsMarkup(c)
    ensures c !in EscapeHtml(s)
  {
    if s != "" {
      EscapedIsClean(s[1..], c);
      assert c !in EscapeChar(s[0]);
    }
  }

  predicate StartsWith(s: Text, prefix: Text) {
    |prefix| <= |s| && s[..|prefix|] == prefix
  }

  /** What a browser makes of the five references the escaping uses. */
  function Unescape(s: Text): Text
    decreases |s|
  {
    if s == "" then ""
    else if StartsWith(s, "&amp;") then "&" + Unescape(s[5..])
    else if StartsWith(s, "&lt;") then "<" + Unescape(s[4..])
    else if StartsWith(s, "&gt;") then ">" + Unescape(s[4..])
    else if StartsWith(s, "&quot;") then "\"" + Unescape(s[6..])
    else if StartsWith(s, "&#39;") then "'" + Unescape(s[5..])
    else [s[0]] + Unescape(s[1..])
  }

  lemma {:induction false} UnescapeFirst(c: char, rest: Text)
    ensures Unescape(EscapeChar(c) + rest) == [c] + Unescape(rest)
  {
    var s := EscapeChar(c) + rest;
    var n := |EscapeChar(c)|;
    assert s[..n] == EscapeChar(c) && s[n..] == rest;
    assert s[0] == EscapeChar(c)[0];
    if EscapeChar(c) == [c] {
      assert forall k :: 0 < k <= |s| ==> s[..k][0] == c;
    } else {
      assert |s| >= 4 && s[1] == EscapeChar(c)[1];
      assert forall k :: 1 < k <= |s| ==> s[..k][1] == s[1];
      assert c == '&' || c == '<' || c == '>' || c == '"' || c == '\'';
    }
  }

  /** A value shown in a page reads as the value. */
  lemma {:induction false} EscapedReadsBack(s: Text)
    ensures Unescape(EscapeHtml(s)) == s
  {
    hide Unescape, EscapeChar;
    if s == "" {
      UnescapeNothing();
    } else {
      EscapedReadsBack(s[1..]);
      UnescapeFirst(s[0], EscapeHtml(s[1..]));
      assert s == [s[0]] + s[1..];
    }
  }

  lemma {:induction false} UnescapeNothing()
    ensures Unescape("") == ""
  {
  }

  lemma {:induction false} DecimalNatIsClean(n: nat, c: char)
    requires IsMarkup(c)
    ensures c !in DecimalNat(n)
  {
    if n >= 10 {
      DecimalNatIsClean(n / 10, c);
    }
  }

  lemma {:induction false} ShownIsClean(v: Value, c: char)
    requires IsMarkup(c)
    ensures Show(v).Some? ==> c !in Show(v).value
  {
    match v {
      case ScalarValue(StringScalar(text)) =>
        EscapedIsClean(text, c);
      case ScalarValue(IntScalar(i)) =>
        DecimalNatIsClean(if i < 0 then -i else i, c);
      case _ =>
    }
  }

  // ---------- whole renderings ----------

  /** The markup characters of a text, in order. */
  function Markup(s: Text): Text {
    if s == "" then "" else (if IsMarkup(s[0]) then [s[0]] else "") + Markup(s[1..])
  }

  lemma {:induction false} MarkupAppend(a: Text, b: Text)
    ensures Markup(a + b) == Markup(a) + Markup(b)
  {
    if a == "" {
      assert a + b == b;
    } else {
      hide IsMarkup;
      MarkupAppend(a[1..], b);
      assert (a + b)[1..] == a[1..] + b;
      var first := if IsMarkup(a[0]) then [a[0]] else "";
      assert first + (Markup(a[1..]) + Markup(b)) == first + Markup(a[1..]) + Markup(b);
    }
  }

  lemma {:induction false} NoMarkup(s: Text)
    requires forall c :: IsMarkup(c) ==> c !in s
    ensures Markup(s) == ""
  {
    if s != "" {
      assert s[0] in s && forall c :: c in s[1..] ==> c in s;
      NoMarkup(s[1..]);
    }
  }

  /** The same error, and the same markup in the text. */
  predicate SameMarkup(a: Outcome, b: Outcome) {
    a.error == b.error && Markup(a.text) == Markup(b.text)
  }

  predicate SameYield(a: Option<Text>, b: Option<Text>) {
    a.Some? == b.Some? && (a.Some? ==> Markup(a.value) == Markup(b.value))
  }

  lemma {:induction false} ThenSameMarkup(a: Outcome, a': Outcome, b: Outcome, b': Outcome)
    requires SameMarkup(a, a') && SameMarkup(b, b')
    ensures SameMarkup(Then(a, b), Then(a', b'))
  {
    hide Markup;
    MarkupAppend(a.text, b.text);
    MarkupAppend(a'.text, b'.text);
  }

  /** Evaluation with the values left out: a variable contributes nothing but its error. Data
      still decide which sections are taken and how often. */
  function Skeleton(data: Data, views: Library<seq<Node>>, ns: seq<Node>, scope: Option<Record>,
                    yielded: Option<Text>, depth: nat): Outcome
    requires depth <= MAX_NESTING
    decreases MAX_NESTING - depth, ns, 1, 0
  {
    if ns == [] then DONE
    else Then(SkeletonNode(data, views, ns[0], scope, yielded, depth),
              Skeleton(data, views, ns[1..], scope, yielded, depth))
  }

  function SkeletonNode(data: Data, views: Library<seq<Node>>, n: Node, scope: Option<Record>,
                        yielded: Option<Text>, depth: nat): Outcome
    requires depth <= MAX_NESTING
    decreases MAX_NESTING - depth, n, 3, 0
  {
    match n
    case TextNode(text) => Outcome(text, None)
    case VariableNode(path) => Outcome("", ShowVariable(data, path, scope).error)
    case YieldNode => ShowYield(yielded)
    case PartialNode(path) =>
      if depth == MAX_NESTING then Fail(NestingExceeded)
      else
        (match Load(views, path)
         case Failure(e) => Fail(e)
         case Success(ns) => Skeleton(data, views, ns, scope, None, depth + 1))
    case SectionNode(inverse, path, body) =>
      match Resolve(data, path, scope)
      case None => Fail(UnknownValue(path))
      case Some(v) =>
        if Truthy(v) == inverse then DONE
        else if !v.CollectionValue? || inverse then Skeleton(data, views, body, scope, yielded, depth)
        else if !v.usable then Fail(InvalidCollection)
        else SkeletonItems(data, views, body, v.items, yielded, depth)
  }

  function SkeletonItems(data: Data, views: Library<seq<Node>>, body: seq<Node>, items: seq<Record>,
                         yielded: Option<Text>, depth: nat): Outcome
    requires depth <= MAX_NESTING
    decreases MAX_NESTING - depth, body, 2, |items|
  {
    if items == [] then DONE
    else Then(Skeleton(data, views, body, Some(items[0]), yielded, depth),
              SkeletonItems(data, views, body, items[1..], yielded, depth))
  }

  lemma {:induction false} ShownHasNoMarkup(data: Data, path: Text, scope: Option<Record>)
    ensures Markup(ShowVariable(data, path, scope).text) == ""
  {
    hide Resolve, Show;
    var value := Resolve(data, path, scope);
    if value.Some? && Show(value.value).Some? {
      forall c | IsMarkup(c)
        ensures c !in Show(value.value).value
      {
        ShownIsClean(value.value, c);
      }
      NoMarkup(Show(value.value).value);
    }
  }

  /** A tree evaluates to the markup of its skeleton, with the same error: no value adds, removes
      or reorders a markup character. */
  lemma {:induction false} EvalKeepsMarkup(data: Data, views: Library<seq<Node>>, ns: seq<Node>, scope: Option<Record>,
                                           yielded: Option<Text>, other: Option<Text>, depth: nat)
    requires depth <= MAX_NESTING && SameYield(yielded, other)
    ensures SameMarkup(Eval(data, views, ns, scope, yielded, depth), Skeleton(data, views, ns, scope, other, depth))
    decreases MAX_NESTING - depth, ns, 1, 0
  {
    hide EvalNode, SkeletonNode, Then, SameYield;
    if ns != [] {
      EvalNodeKeepsMarkup(data, views, ns[0], scope, yielded, other, depth);
      EvalKeepsMarkup(data, views, ns[1..], scope, yielded, other, depth);
      hide SameMarkup;
      ThenSameMarkup(EvalNode(data, views, ns[0], scope, yielded, depth),
                     SkeletonNode(data, views, ns[0], scope, other, depth),
                     Eval(data, views, ns[1..], scope, yielded, depth),
                     Skeleton(data, views, ns[1..], scope, other, depth));
    }
  }

  lemma {:induction false} EvalNodeKeepsMarkup(data: Data, views: Library<seq<Node>>, n: Node, scope: Option<Record>,
                                               yielded: Option<Text>, other: Option<Text>, depth: nat)
    requires depth <= MAX_NESTING && SameYield(yielded, other)
    ensures SameMarkup(EvalNode(data, views, n, scope, yielded, depth),
                     SkeletonNode(data, views, n, scope, other, depth))
    decreases MAX_NESTING - depth, n, 3, 0
  {
    hide Eval, EvalItems, Skeleton, SkeletonItems, Resolve, ShowVariable, Load;
    match n
    case VariableNode(path) =>
      ShownHasNoMarkup(data, path, scope);
    case PartialNode(path) =>
      if depth < MAX_NESTING && Load(views, path).Success? {
        EvalKeepsMarkup(data, views, Load(views, path).value, scope, None, None, depth + 1);
      }
    case SectionNode(_, path, body) =>
      EvalKeepsMarkup(data, views, body, scope, yielded, other, depth);
      var value := Resolve(data, path, scope);
      if value.Some? && value.value.CollectionValue? {
        EvalItemsKeepMarkup(data, views, body, value.value.items, yielded, other, depth);
      }
    case _ =>
  }

  lemma {:induction false} EvalItemsKeepMarkup(data: Data, views: Library<seq<Node>>, body: seq<Node>,
                                               items: seq<Record>, yielded: Option<Text>,
                                               other: Option<Text>, depth: nat)
    requires depth <= MAX_NESTING && SameYield(yielded, other)
    ensures SameMarkup(EvalItems(data, views, body, items, yielded, depth),
                     SkeletonItems(data, views, body, items, other, depth))
    decreases MAX_NESTING - depth, body, 2, |items|
  {
    hide Eval, Skeleton, Then, SameYield;
    if items != [] {
      EvalKeepsMarkup(data, views, body, Some(items[0]), yielded, other, depth);
      EvalItemsKeepMarkup(data, views, body, items[1..], yielded, other, depth);
      hide SameMarkup;
      ThenSameMarkup(Eval(data, views, body, Some(items[0]), yielded, depth),
                     Skeleton(data, views, body, Some(items[0]), other, depth),
                     EvalItems(data, views, body, items[1..], yielded, depth),
                     SkeletonItems(data, views, body, items[1..], other, depth));
    }
  }

  function SkeletonView(data: Data, views: Library<seq<Node>>, path: Text): Outcome {
    match Load(views, path)
    case Failure(e) => Fail(e)
    case Success(ns) => Skeleton(data, views, ns, None, None, 0)
  }

  /** Main result: for all sources and data, a rendered view has exactly the markup of its
      templates: the markup and the error of its skeleton. */
  lemma {:induction false} MarkupComesFromTemplates(data: Data, sources: Sources, views: Library<seq<Node>>, path: Text)
    requires SpellsAll(sources, views)
    ensures SameMarkup(RenderToString(data, ParseLibrary(sources), path), SkeletonView(data, views, path))
  {
    hide RenderToString, Eval, Skeleton, Load, SpellsAll;
    RenderSourcesIsEval(data, sources, views, path);
    if Load(views, path).Success? {
      EvalKeepsMarkup(data, views, Load(views, path).value, None, None, None, 0);
    }
  }

  /** The page in its layout, with the values left out of both. */
  function SkeletonPage(data: Data, views: Library<seq<Node>>, path: Text): Outcome {
    var page := SkeletonView(data, views, path);
    if page.error.Some? then Fail(page.error.value)
    else
      match Load(views, LAYOUT)
      case Failure(ViewNotFound) => page
      case Failure(e) => Fail(e)
      case Success(ns) =>
        Skeleton(data, views, ns, None, if EvalView(data, views, path).text == "" then None else Some(page.text), 0)
  }

  /** Main result: so has a page in its layout. */
  lemma {:induction false} PageMarkupComesFromTemplates(data: Data, sources: Sources, views: Library<seq<Node>>,
                                                        path: Text)
    requires SpellsAll(sources, views)
    ensures SameMarkup(RenderWithLayout(data, ParseLibrary(sources), path), SkeletonPage(data, views, path))
  {
    hide RenderWithLayout, RenderToString, EvalView, SkeletonView, Eval, Skeleton, Load, SpellsAll, Markup;
    RenderSourcesPageIsEval(data, sources, views, path);
    RenderSourcesIsEval(data, sources, views, path);
    MarkupComesFromTemplates(data, sources, views, path);
    var page, bare := EvalView(data, views, path), SkeletonView(data, views, path);
    if page.error.None? && Load(views, LAYOUT).Success? {
      var yielded := if page.text == "" then None else Some(page.text);
      var other := if page.text == "" then None else Some(bare.text);
      EvalKeepsMarkup(data, views, Load(views, LAYOUT).value, None, yielded, other, 0);
    }
  }
}
