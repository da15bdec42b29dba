/** What a template shows, said of names and values: which value a name means, how values are
    written, what a section does with each, and what a partial stands for. */
module ViewMeanings {
  import opened Texts
  import opened Numbers
  import opened Templates
  import opened TemplateParser
  import opened TemplateTheorems
  import opened TemplateForms
  import opened Views
  import opened RenderTheorems
  import opened Layouts

  // ---------- names and written values ----------

  /** An undotted name, as a tag can hold one. */
  predicate Simple(name: Text) {
    && name != "" && !('0' <= name[0] <= '9')
    && forall i :: 0 <= i < |name| ==>
         'a' <= name[i] <= 'z' || 'A' <= name[i] <= 'Z' || '0' <= name[i] <= '9' || name[i] == '_'
  }

  lemma {:induction false} SimpleHasNoDot(name: Text)
    requires Simple(name)
    ensures FindChar(name, '.') == None && IsDataName(name) && IsIdentifier(name) && IsVariablePath(name)
  {
    assert '.' !in name;
  }

  /** How a value is written; strings with the five references of HTML. */
  predicate WrittenAs(s: Scalar, text: Text) {
    match s
    case StringScalar(t) => References(t, text)
    case IntScalar(i) => IsInteger(text) && IntegerOf(text) == i && Canonical(text)
    case BoolScalar(b) => text == if b then "true" else "false"
  }

  /** No plus sign, no leading zero, no negative zero. */
  predicate Canonical(text: Text) {
    text != "" && text[0] != '+' && (|text| > 1 ==> text[0] != '0') && (|text| > 1 && text[0] == '-' ==> text[1] != '0')
  }

  /** `text` is `t` with a reference for every character that HTML gives a meaning. */
  predicate References(t: Text, text: Text)
    decreases |t|
  {
    if t == "" then text == ""
    else exists n :: 0 <= n <= |text| && Reference(t[0], text[..n]) && References(t[1..], text[n..])
  }

  predicate Reference(c: char, text: Text) {
    match c
    case '&' => text == "&amp;"
    case '<' => text == "&lt;"
    case '>' => text == "&gt;"
    case '"' => text == "&quot;"
    case '\'' => text == "&#39;"
    case _ => text == [c]
  }

  lemma {:induction false} EscapedHasReferences(t: Text)
    ensures References(t, EscapeHtml(t))
  {
    if t != "" {
      EscapedHasReferences(t[1..]);
      var first, text := EscapeChar(t[0]), EscapeHtml(t);
      assert text[..|first|] == first && text[|first|..] == EscapeHtml(t[1..]);
      assert Reference(t[0], text[..|first|]);
    }
  }

  lemma {:induction false} NumeralIsCanonical(n: nat)
    ensures DecimalNat(n)[0] == '0' ==> n == 0
    ensures '0' <= DecimalNat(n)[0] <= '9'
  {
    if n >= 10 {
      NumeralIsCanonical(n / 10);
    }
  }

  lemma {:induction false} DecimalIsCanonical(i: int)
    ensures Canonical(Decimal(i))
  {
    NumeralIsCanonical(if i < 0 then -i else i);
    if i == 0 {
      assert DecimalNat(0) == [DigitChar(0)];
    }
  }

  lemma {:induction false} ShownAsWritten(s: Scalar) returns (text: Text)
    ensures Show(ScalarValue(s)) == Some(text) && WrittenAs(s, text)
  {
    text := Show(ScalarValue(s)).value;
    match s
    case StringScalar(t) => EscapedHasReferences(t);
    case IntScalar(i) =>
      IntegerOfDecimal(i);
      DecimalIsCanonical(i);
    case BoolScalar(_) =>
  }

  // ---------- variables ----------

  /** The variable shows this value. */
  ghost predicate Shows(data: Data, name: Text, scope: Option<Record>, s: Scalar) {
    forall views: Library<seq<Node>>, yielded: Option<Text>, depth: nat :: depth <= MAX_NESTING ==>
      (var shown := Eval(data, views, [VariableNode(name)], scope, yielded, depth);
       shown.error == None && WrittenAs(s, shown.text))
  }

  ghost predicate FailsWith(data: Data, name: Text, scope: Option<Record>, e: RenderError) {
    forall views: Library<seq<Node>>, yielded: Option<Text>, depth: nat :: depth <= MAX_NESTING ==>
      Eval(data, views, [VariableNode(name)], scope, yielded, depth) == Outcome("", Some(e))
  }

  lemma {:induction false} OneVariable(data: Data, views: Library<seq<Node>>, name: Text, scope: Option<Record>,
                                       yielded: Option<Text>, depth: nat)
    requires depth <= MAX_NESTING
    ensures Eval(data, views, [VariableNode(name)], scope, yielded, depth) == ShowVariable(data, name, scope)
  {
    hide ShowVariable;
    assert [VariableNode(name)][1..] == [];
    ThenAssociative(ShowVariable(data, name, scope), DONE, DONE);
  }

  /** Main result, the scope rule: inside an item, a name that is one of its fields means that
      field, whatever the page calls by the same name. */
  lemma {:induction false} ItemFieldIsShown(data: Data, name: Text, item: Record)
    requires Simple(name) && name in item
    ensures Shows(data, name, Some(item), item[name])
  {
    SimpleHasNoDot(name);
    var text := ShownAsWritten(item[name]);
    hide Eval, Show, IsVariablePath, WrittenAs;
    forall views: Library<seq<Node>>, yielded: Option<Text>, depth: nat | depth <= MAX_NESTING
      ensures Eval(data, views, [VariableNode(name)], Some(item), yielded, depth) == Outcome(text, None)
    {
      OneVariable(data, views, name, Some(item), yielded, depth);
    }
  }

  /** Main result: any other undotted name means the value of the page; one without a value there
      is an error, and so is one whose value is a record or a collection. */
  lemma {:induction false} PageValueIsShown(data: Data, name: Text, scope: Option<Record>)
    requires Simple(name) && (scope.Some? ==> name !in scope.value)
    ensures name !in data ==> FailsWith(data, name, scope, UnknownValue(name))
    ensures name in data ==>
              match data[name]
              case ScalarValue(s) => Shows(data, name, scope, s)
              case EmptyValue => forall views: Library<seq<Node>>, yielded: Option<Text>, depth: nat ::
                depth <= MAX_NESTING ==>
                  Eval(data, views, [VariableNode(name)], scope, yielded, depth) == Outcome("", None)
              case _ => FailsWith(data, name, scope, NotRenderable)
  {
    SimpleHasNoDot(name);
    var text := "";
    if name in data && data[name].ScalarValue? {
      text := ShownAsWritten(data[name].scalar);
    }
    hide Eval, IsVariablePath, WrittenAs, EscapeHtml, Decimal;
    forall views: Library<seq<Node>>, yielded: Option<Text>, depth: nat | depth <= MAX_NESTING
      ensures Eval(data, views, [VariableNode(name)], scope, yielded, depth)
           == if name !in data then Outcome("", Some(UnknownValue(name)))
              else if data[name].ScalarValue? || data[name].EmptyValue? then Outcome(text, None)
              else Outcome("", Some(NotRenderable))
    {
      OneVariable(data, views, name, scope, yielded, depth);
    }
  }

  /** The page has a record of this name with this field. */
  predicate HasField(data: Data, root: Text, field: Text) {
    root in data && data[root].ModelValue? && data[root].record.Some? && field in data[root].record.value
  }

  lemma {:induction false} DottedResolves(data: Data, root: Text, field: Text, scope: Option<Record>)
    requires Simple(root) && Simple(field)
    ensures Resolve(data, root + "." + field, scope)
         == if HasField(data, root, field) then Some(ScalarValue(data[root].record.value[field])) else None
  {
    SimpleHasNoDot(root);
    SimpleHasNoDot(field);
    hide Simple, IsDataName, IsVariablePath, IsIdentifier, FindChar;
    var path := root + "." + field;
    assert path[..|root|] == root && path[|root| + 1..] == field;
    FoundCharAt(path, '.', |root|);
  }

  /** Main result: a dotted name means the field of a record of the page in every scope, and is an
      error where the page has no such record or the record no such field. */
  lemma {:induction false} DottedFieldIsShown(data: Data, root: Text, field: Text, scope: Option<Record>)
    requires Simple(root) && Simple(field)
    ensures var known := HasField(data, root, field);
            if known then Shows(data, root + "." + field, scope, data[root].record.value[field])
            else FailsWith(data, root + "." + field, scope, UnknownValue(root + "." + field))
  {
    DottedResolves(data, root, field, scope);
    var path := root + "." + field;
    var known := HasField(data, root, field);
    var text := "";
    if known {
      text := ShownAsWritten(data[root].record.value[field]);
    }
    hide Eval, WrittenAs, Show, Resolve;
    forall views: Library<seq<Node>>, yielded: Option<Text>, depth: nat | depth <= MAX_NESTING
      ensures Eval(data, views, [VariableNode(path)], scope, yielded, depth)
           == if known then Outcome(text, None) else Outcome("", Some(UnknownValue(path)))
    {
      OneVariable(data, views, path, scope, yielded, depth);
    }
  }

  // ---------- sections ----------

  /** A value that a section takes for nothing. */
  predicate Blank(v: Value) {
    || v in {EmptyValue, ScalarValue(StringScalar("")), ScalarValue(IntScalar(0)), ScalarValue(BoolScalar(false)),
             ModelValue(None)}
    || (v.CollectionValue? && v.items == [])
  }

  /** The path means this value in this scope. */
  ghost predicate Names(data: Data, scope: Option<Record>, path: Text, v: Value) {
    if Simple(path) then
      if scope.Some? && path in scope.value then v == ScalarValue(scope.value[path])
      else path in data && v == data[path]
    else
      exists root, field :: path == root + "." + field && NamesField(data, root, field, v)
  }

  predicate NamesField(data: Data, root: Text, field: Text, v: Value) {
    && Simple(root) && Simple(field)
    && HasField(data, root, field) && v == ScalarValue(data[root].record.value[field])
  }

  /** One outcome after the other, up to the first error. */
  function Sequel(outcomes: seq<Outcome>): Outcome {
    if outcomes == [] then Outcome("", None)
    else if outcomes[0].error.Some? then outcomes[0]
    else
      var rest := Sequel(outcomes[1..]);
      Outcome(outcomes[0].text + rest.text, rest.error)
  }

  function ItemOutcomes(data: Data, views: Library<seq<Node>>, body: seq<Node>, items: seq<Record>,
                        yielded: Option<Text>, depth: nat): seq<Outcome>
    requires depth <= MAX_NESTING
  {
    seq(|items|, k requires 0 <= k < |items| => Eval(data, views, body, Some(items[k]), yielded, depth))
  }

  lemma {:induction false} ItemsAreSequel(data: Data, views: Library<seq<Node>>, body: seq<Node>, items: seq<Record>,
                                          yielded: Option<Text>, depth: nat)
    requires depth <= MAX_NESTING
    ensures EvalItems(data, views, body, items, yielded, depth)
         == Sequel(ItemOutcomes(data, views, body, items, yielded, depth))
    decreases |items|
  {
    hide Eval;
    if items != [] {
      ItemsAreSequel(data, views, body, items[1..], yielded, depth);
      assert ItemOutcomes(data, views, body, items, yielded, depth)[1..]
          == ItemOutcomes(data, views, body, items[1..], yielded, depth);
    }
  }

  lemma {:induction false} TruthIsNotBlank(v: Value)
    ensures Truthy(v) <==> !Blank(v)
  {
  }

  lemma {:induction false} NamedValue(data: Data, scope: Option<Record>, path: Text, v: Value)
    requires Names(data, scope, path, v)
    ensures Resolve(data, path, scope) == Some(v)
  {
    hide IsVariablePath, IsIdentifier, FindChar, IsDataName;
    if Simple(path) {
      SimpleHasNoDot(path);
    } else {
      var root, field :| path == root + "." + field && NamesField(data, root, field, v);
      hide Resolve;
      DottedResolves(data, root, field, scope);
    }
  }

  /** Main result: what a section shows. Blank values hide a section and show an inverse one, all
      others the other way round; a collection shows the body once for each item, in order and
      with the item as the innermost scope; everything else shows it once, in the same scope. */
  lemma {:induction false} SectionShows(data: Data, views: Library<seq<Node>>, inverse: bool, path: Text,
                                        body: seq<Node>, scope: Option<Record>, yielded: Option<Text>, depth: nat,
                                        v: Value)
    requires depth <= MAX_NESTING && Names(data, scope, path, v)
    ensures Eval(data, views, [SectionNode(inverse, path, body)], scope, yielded, depth)
         == if Blank(v) != inverse then Outcome("", None)
            else if inverse || !v.CollectionValue? then Eval(data, views, body, scope, yielded, depth)
            else if v.usable then Sequel(ItemOutcomes(data, views, body, v.items, yielded, depth))
            else Outcome("", Some(InvalidCollection))
  {
    hide Names, Blank, Truthy, Resolve, Eval, EvalItems, ItemOutcomes, Sequel;
    var n := SectionNode(inverse, path, body);
    NamedValue(data, scope, path, v);
    TruthIsNotBlank(v);
    OneNode(data, views, n, scope, yielded, depth);
    if v.CollectionValue? {
      ItemsAreSequel(data, views, body, v.items, yielded, depth);
    }
  }

  /** A section over a name that means nothing is an error. */
  lemma {:induction false} UnknownSectionFails(data: Data, views: Library<seq<Node>>, inverse: bool, name: Text,
                                               body: seq<Node>, scope: Option<Record>, yielded: Option<Text>,
                                               depth: nat)
    requires depth <= MAX_NESTING && Simple(name) && name !in data && (scope.Some? ==> name !in scope.value)
    ensures Eval(data, views, [SectionNode(inverse, name, body)], scope, yielded, depth)
         == Outcome("", Some(UnknownValue(name)))
  {
    hide Eval, EvalItems, IsVariablePath, IsIdentifier;
    SimpleHasNoDot(name);
    OneNode(data, views, SectionNode(inverse, name, body), scope, yielded, depth);
  }

  lemma {:induction false} OneNode(data: Data, views: Library<seq<Node>>, n: Node, scope: Option<Record>,
                                   yielded: Option<Text>, depth: nat)
    requires depth <= MAX_NESTING
    ensures Eval(data, views, [n], scope, yielded, depth) == EvalNode(data, views, n, scope, yielded, depth)
  {
    hide EvalNode;
    assert [n][1..] == [];
    ThenAssociative(EvalNode(data, views, n, scope, yielded, depth), DONE, DONE);
  }

  /** A forest shows what its nodes show, one after the other. */
  lemma {:induction false} ForestIsSequel(data: Data, views: Library<seq<Node>>, ns: seq<Node>, scope: Option<Record>,
                                          yielded: Option<Text>, depth: nat)
    requires depth <= MAX_NESTING
    ensures Eval(data, views, ns, scope, yielded, depth)
         == Sequel(seq(|ns|, k requires 0 <= k < |ns| => Eval(data, views, [ns[k]], scope, yielded, depth)))
    decreases |ns|
  {
    hide EvalNode;
    var each := seq(|ns|, k requires 0 <= k < |ns| => Eval(data, views, [ns[k]], scope, yielded, depth));
    if ns != [] {
      ForestIsSequel(data, views, ns[1..], scope, yielded, depth);
      OneNode(data, views, ns[0], scope, yielded, depth);
      assert each[1..] == seq(|ns[1..]|, k requires 0 <= k < |ns[1..]| =>
                                Eval(data, views, [ns[1..][k]], scope, yielded, depth));
    }
  }

  // ---------- partials ----------

  function HasYield(ns: seq<Node>): bool
    decreases ns
  {
    ns != [] && (ns[0].YieldNode? || (ns[0].SectionNode? && HasYield(ns[0].body)) || HasYield(ns[1..]))
  }

  /** One level deeper an evaluation is the same, unless it comes to the nesting limit; and a
      forest without a yield does not look at the page. */
  lemma {:induction false} DepthOnlyLimits(data: Data, views: Library<seq<Node>>, ns: seq<Node>, scope: Option<Record>,
                                           yielded: Option<Text>, other: Option<Text>, depth: nat)
    requires depth < MAX_NESTING && (yielded == other || !HasYield(ns))
    requires Eval(data, views, ns, scope, yielded, depth + 1).error != Some(NestingExceeded)
    ensures Eval(data, views, ns, scope, other, depth) == Eval(data, views, ns, scope, yielded, depth + 1)
    decreases MAX_NESTING - depth, ns, 1, 0
  {
    hide EvalNode;
    if ns != [] {
      DepthOnlyLimitsNode(data, views, ns[0], scope, yielded, other, depth);
      if EvalNode(data, views, ns[0], scope, yielded, depth + 1).error.None? {
        DepthOnlyLimits(data, views, ns[1..], scope, yielded, other, depth);
      }
    }
  }

  lemma {:induction false} DepthOnlyLimitsNode(data: Data, views: Library<seq<Node>>, n: Node, scope: Option<Record>,
                                               yielded: Option<Text>, other: Option<Text>, depth: nat)
    requires depth < MAX_NESTING && (yielded == other || !HasYield([n]))
    requires EvalNode(data, views, n, scope, yielded, depth + 1).error != Some(NestingExceeded)
    ensures EvalNode(data, views, n, scope, other, depth) == EvalNode(data, views, n, scope, yielded, depth + 1)
    decreases MAX_NESTING - depth, n, 3, 0
  {
    hide Eval, EvalItems, Resolve, ShowVariable, Load;
    match n
    case PartialNode(path) =>
      if depth + 1 < MAX_NESTING && Load(views, path).Success? {
        DepthOnlyLimits(data, views, Load(views, path).value, scope, None, None, depth + 1);
      }
    case SectionNode(inverse, path, body) =>
      var value := Resolve(data, path, scope);
      if value.Some? && Truthy(value.value) != inverse {
        if value.value.CollectionValue? && !inverse {
          if value.value.usable {
            DepthOnlyLimitsItems(data, views, body, value.value.items, yielded, other, depth);
          }
        } else {
          DepthOnlyLimits(data, views, body, scope, yielded, other, depth);
        }
      }
    case _ =>
  }

  lemma {:induction false} DepthOnlyLimitsItems(data: Data, views: Library<seq<Node>>, body: seq<Node>,
                                                items: seq<Record>, yielded: Option<Text>, other: Option<Text>,
                                                depth: nat)
    requires depth < MAX_NESTING && (yielded == other || !HasYield(body))
    requires EvalItems(data, views, body, items, yielded, depth + 1).error != Some(NestingExceeded)
    ensures EvalItems(data, views, body, items, other, depth) == EvalItems(data, views, body, items, yielded, depth + 1)
    decreases MAX_NESTING - depth, body, 2, |items|
  {
    hide Eval;
    if items != [] {
      DepthOnlyLimits(data, views, body, Some(items[0]), yielded, other, depth);
      if Eval(data, views, body, Some(items[0]), yielded, depth + 1).error.None? {
        DepthOnlyLimitsItems(data, views, body, items[1..], yielded, other, depth);
      }
    }
  }

  /** Every partial, wherever it stands, replaced by the tree it names, when there is one without a
      yield. */
  function Inlined(views: Library<seq<Node>>, ns: seq<Node>): seq<Node>
    decreases ns, 0
  {
    if ns == [] then [] else InlinedNode(views, ns[0]) + Inlined(views, ns[1..])
  }

  function InlinedNode(views: Library<seq<Node>>, n: Node): seq<Node>
    decreases n, 1
  {
    match n
    case PartialNode(path) =>
      if IsViewPath(path) && path in views && views[path].Good? && !HasYield(views[path].content)
      then views[path].content else [n]
    case SectionNode(inverse, path, body) => [SectionNode(inverse, path, Inlined(views, body))]
    case _ => [n]
  }

  lemma {:induction false} EvalAppend(data: Data, views: Library<seq<Node>>, a: seq<Node>, b: seq<Node>,
                                      scope: Option<Record>, yielded: Option<Text>, depth: nat)
    requires depth <= MAX_NESTING
    ensures Eval(data, views, a + b, scope, yielded, depth)
         == Then(Eval(data, views, a, scope, yielded, depth), Eval(data, views, b, scope, yielded, depth))
    decreases |a|
  {
    hide EvalNode;
    if a == [] {
      assert a + b == b;
      ThenAssociative(Eval(data, views, b, scope, yielded, depth), DONE, DONE);
    } else {
      assert (a + b)[1..] == a[1..] + b;
      EvalAppend(data, views, a[1..], b, scope, yielded, depth);
      ThenAssociative(EvalNode(data, views, a[0], scope, yielded, depth),
                      Eval(data, views, a[1..], scope, yielded, depth), Eval(data, views, b, scope, yielded, depth));
    }
  }

  /** Main result: a partial means the tree it names, in the scope where it stands: replacing all
      partials at once leaves what a template shows as it was, unless that comes to the nesting
      limit. */
  lemma {:induction false} InliningKeepsMeaning(data: Data, views: Library<seq<Node>>, ns: seq<Node>,
                                                scope: Option<Record>, yielded: Option<Text>, depth: nat)
    requires depth <= MAX_NESTING
    requires Eval(data, views, ns, scope, yielded, depth).error != Some(NestingExceeded)
    ensures Eval(data, views, Inlined(views, ns), scope, yielded, depth) == Eval(data, views, ns, scope, yielded, depth)
    decreases ns, 1, 0
  {
    hide EvalNode, InlinedNode;
    if ns != [] {
      EvalAppend(data, views, InlinedNode(views, ns[0]), Inlined(views, ns[1..]), scope, yielded, depth);
      InliningKeepsNode(data, views, ns[0], scope, yielded, depth);
      if EvalNode(data, views, ns[0], scope, yielded, depth).error.None? {
        InliningKeepsMeaning(data, views, ns[1..], scope, yielded, depth);
      }
    }
  }

  lemma {:induction false} InliningKeepsNode(data: Data, views: Library<seq<Node>>, n: Node, scope: Option<Record>,
                                             yielded: Option<Text>, depth: nat)
    requires depth <= MAX_NESTING
    requires EvalNode(data, views, n, scope, yielded, depth).error != Some(NestingExceeded)
    ensures Eval(data, views, InlinedNode(views, n), scope, yielded, depth)
         == EvalNode(data, views, n, scope, yielded, depth)
    decreases n, 3, 0
  {
    hide Eval, EvalItems, Resolve, ShowVariable, IsViewPath, HasYield, Inlined;
    OneNode(data, views, n, scope, yielded, depth);
    match n
    case PartialNode(path) =>
      if InlinedNode(views, n) != [n] {
        DepthOnlyLimits(data, views, views[path].content, scope, None, yielded, depth);
      }
    case SectionNode(inverse, path, body) =>
      OneNode(data, views, SectionNode(inverse, path, Inlined(views, body)), scope, yielded, depth);
      var value := Resolve(data, path, scope);
      if value.Some? && Truthy(value.value) != inverse {
        if value.value.CollectionValue? && !inverse {
          if value.value.usable {
            InliningKeepsItems(data, views, body, value.value.items, yielded, depth);
          }
        } else {
          InliningKeepsMeaning(data, views, body, scope, yielded, depth);
        }
      }
    case _ =>
  }

  lemma {:induction false} InliningKeepsItems(data: Data, views: Library<seq<Node>>, body: seq<Node>,
                                              items: seq<Record>, yielded: Option<Text>, depth: nat)
    requires depth <= MAX_NESTING
    requires EvalItems(data, views, body, items, yielded, depth).error != Some(NestingExceeded)
    ensures EvalItems(data, views, Inlined(views, body), items, yielded, depth)
         == EvalItems(data, views, body, items, yielded, depth)
    decreases body, 2, |items|
  {
    hide Eval, Inlined;
    if items != [] {
      InliningKeepsMeaning(data, views, body, Some(items[0]), yielded, depth);
      if Eval(data, views, body, Some(items[0]), yielded, depth).error.None? {
        InliningKeepsItems(data, views, body, items[1..], yielded, depth);
      }
    }
  }

  /** How a partial fails: for a bad path, a missing or broken view, too deep a nesting, and where
      the tree it names yields, whether or not there is a page. */
  lemma {:induction false} PartialFails(data: Data, views: Library<seq<Node>>, path: Text, scope: Option<Record>,
                                        yielded: Option<Text>, depth: nat, rest: seq<Node>)
    requires depth <= 64
    ensures (var error := Eval(data, views, [PartialNode(path)], scope, yielded, depth).error;
             && (depth == 64 ==> error == Some(NestingExceeded))
             && (depth < 64 && !IsViewPath(path) ==> error == Some(InvalidViewPath))
             && (depth < 64 && IsViewPath(path) && path !in views ==> error == Some(ViewNotFound))
             && (depth < 64 && IsViewPath(path) && path in views && views[path] == Broken ==> error == Some(ViewBroken))
             && (depth < 64 && IsViewPath(path) && path in views && views[path] == Good([YieldNode] + rest) ==>
                   error == Some(YieldUnavailable)))
  {
    hide IsViewPath;
    OneNode(data, views, PartialNode(path), scope, yielded, depth);
    if depth < 64 {
      OneNode(data, views, YieldNode, scope, None, depth + 1);
      EvalAppend(data, views, [YieldNode], rest, scope, None, depth + 1);
    }
    hide Eval;
  }

  // ---------- from the source text to the page ----------

  function Concat(texts: seq<Text>): Text {
    if texts == [] then "" else texts[0] + Concat(texts[1..])
  }

  lemma {:induction false} SequelOfTexts(outcomes: seq<Outcome>, texts: seq<Text>)
    requires |texts| == |outcomes| && forall k :: 0 <= k < |texts| ==> outcomes[k] == Outcome(texts[k], None)
    ensures Sequel(outcomes) == Outcome(Concat(texts), None)
    decreases |texts|
  {
    if texts != [] {
      SequelOfTexts(outcomes[1..], texts[1..]);
    }
  }

  /** The source of a view that lists one field of each item. */
  function ListSource(list: Text, field: Text): Text {
    "{{" + "#" + list + "}}" + ("{{" + field + "}}") + ("{{" + "/" + list + "}}")
  }

  function ListTree(list: Text, field: Text): seq<Node> {
    [SectionNode(false, list, [VariableNode(field)])]
  }

  lemma {:induction false} ListSourceSpells(list: Text, field: Text)
    requires Simple(list) && Simple(field) && field != "yield"
    ensures Lex(ListSource(list, field)) == Success(TokensOf(ListTree(list, field)))
  {
    hide Lex, IsVariablePath, IsIdentifier, Simple, Print;
    SimpleHasNoDot(list);
    SimpleHasNoDot(field);
    PrintedForms("", list, [VariableNode(field)], []);
    PrintedForms("", field, [], []);
    var tokens := [OpenToken(false, list), VariableToken(field), CloseToken(list)];
    ListTokens(list, field);
    LexPrinted(tokens);
    assert Print(ListTree(list, field)) == ListSource(list, field);
    PrintIs(ListTree(list, field));
  }

  lemma {:induction false} PrintIs(ns: seq<Node>)
    ensures Print(ns) == PrintTokens(TokensOf(ns))
  {
    hide PrintTokens, TokensOf;
  }

  lemma {:induction false} ListTokens(list: Text, field: Text)
    ensures TokensOf(ListTree(list, field)) == [OpenToken(false, list), VariableToken(field), CloseToken(list)]
  {
    var inner := [VariableNode(field)];
    assert inner[1..] == [] && ListTree(list, field)[1..] == [];
    assert TokensOf(inner) == [VariableToken(field)] + [] == [VariableToken(field)];
  }

  /** Main result, from source text to page: the view `{{#list}}{{field}}{{/list}}` shows that field
      of every item, in order, each written by the rules above, even where the page has a value of
      the same name. */
  lemma {:induction false} ListIsShown(data: Data, sources: Sources, path: Text, list: Text, field: Text,
                                       items: seq<Record>) returns (texts: seq<Text>)
    requires Simple(list) && Simple(field) && field != "yield" && SlashedName(path)
    requires path in sources && sources[path] == ListSource(list, field)
    requires list in data && data[list] == CollectionValue(items, true)
    requires forall item :: item in items ==> field in item
    ensures |texts| == |items| && forall k :: 0 <= k < |items| ==> WrittenAs(items[k][field], texts[k])
    ensures RenderToString(data, ParseLibrary(sources), path) == Outcome(Concat(texts), None)
  {
    hide Lex, Simple, SlashedName, IsViewPath, IsVariablePath, RenderToString, Eval, WrittenAs, ListSource, ListTree,
         SpellsAll, ParseLibrary;
    var ns := ListTree(list, field);
    ListSourceSpells(list, field);
    ViewPathIsSlashedName(path);
    var views := SourcesSpell(sources);
    views := RespelledLibrary(sources, views, path, ns);
    RenderSourcesIsEval(data, sources, views, path);
    texts := [];
    for k := 0 to |items|
      invariant |texts| == k
      invariant forall j :: 0 <= j < k ==> WrittenAs(items[j][field], texts[j])
      invariant forall j :: 0 <= j < k ==>
                  Eval(data, views, [VariableNode(field)], Some(items[j]), None, 0) == Outcome(texts[j], None)
    {
      ItemFieldIsShown(data, field, items[k]);
      texts := texts + [Eval(data, views, [VariableNode(field)], Some(items[k]), None, 0).text];
    }
    var body := [VariableNode(field)];
    SequelOfTexts(ItemOutcomes(data, views, body, items, None, 0), texts);
    ListSectionShows(data, views, list, field, items);
  }

  lemma {:induction false} RespelledLibrary(sources: Sources, views: Library<seq<Node>>, path: Text, ns: seq<Node>)
    returns (other: Library<seq<Node>>)
    requires SpellsAll(sources, views) && path in sources && Lex(sources[path]) == Success(TokensOf(ns))
    ensures SpellsAll(sources, other) && path in other && other[path] == Good(ns)
  {
    other := views[path := Good(ns)];
  }

  lemma {:induction false} ListSectionShows(data: Data, views: Library<seq<Node>>, list: Text, field: Text,
                                            items: seq<Record>)
    requires Simple(list) && list in data && data[list] == CollectionValue(items, true)
    ensures Eval(data, views, ListTree(list, field), None, None, 0)
         == Sequel(ItemOutcomes(data, views, [VariableNode(field)], items, None, 0))
  {
    hide Simple, Eval;
    SectionShows(data, views, false, list, [VariableNode(field)], None, None, 0, data[list]);
    if items == [] {
      assert ItemOutcomes(data, views, [VariableNode(field)], items, None, 0) == [];
    }
  }

  // ---------- pages in the layout ----------

  /** A text in which no tag begins. */
  ghost predicate NoTag(text: Text) {
    forall j: nat :: !OccursAt(text, "{{", j)
  }

  function TextNodes(text: Text): seq<Node> {
    if text == "" then [] else [TextNode(text)]
  }

  function TextTokens(text: Text): seq<Token> {
    if text == "" then [] else [TextToken(text)]
  }

  lemma {:induction false} TextNodeTokens(text: Text)
    ensures TokensOf(TextNodes(text)) == TextTokens(text) && PrintTokens(TextTokens(text)) == text
  {
    if text != "" {
      assert [TextNode(text)][1..] == [] && [TextToken(text)][1..] == [];
      assert TokensOf(TextNodes(text)) == [TextToken(text)] + [] == [TextToken(text)];
      assert text + "" == text;
    }
  }

  function YieldTree(before: Text, after: Text): seq<Node> {
    TextNodes(before) + [YieldNode] + TextNodes(after)
  }

  lemma {:induction false} YieldTokens(before: Text, after: Text)
    ensures TokensOf(YieldTree(before, after)) == TextTokens(before) + [YieldToken] + TextTokens(after)
    ensures Print(YieldTree(before, after)) == before + "{{yield}}" + after
  {
    hide TextNodes, TextTokens, TokensOf, PrintTokens;
    TextNodeTokens(before);
    TextNodeTokens(after);
    TagsPrint("", "");
    TokensAppend(TextNodes(before) + [YieldNode], TextNodes(after));
    TokensAppend(TextNodes(before), [YieldNode]);
    OneNodeTokens(YieldNode);
    PrintAppend(TextTokens(before) + [YieldToken], TextTokens(after));
    PrintAppend(TextTokens(before), [YieldToken]);
    OneTokenPrints(YieldToken);
  }

  lemma {:induction false} OneNodeTokens(n: Node)
    ensures TokensOf([n]) == TokensOfNode(n)
  {
    hide TokensOfNode;
    assert [n][1..] == [] && TokensOfNode(n) + [] == TokensOfNode(n);
  }

  lemma {:induction false} YieldSourceSpells(before: Text, after: Text)
    requires NoTag(before) && NoTag(after) && (before != "" ==> before[|before| - 1] != '{')
    ensures Lex(before + "{{yield}}" + after) == Success(TokensOf(YieldTree(before, after)))
  {
    hide Lex, YieldTree, PrintTokens, TokensOf;
    YieldTokens(before, after);
    PrintIs(YieldTree(before, after));
    LexPrinted(TextTokens(before) + [YieldToken] + TextTokens(after));
  }

  lemma {:induction false} YieldTreeShows(data: Data, views: Library<seq<Node>>, before: Text, after: Text,
                                          page: Option<Text>)
    ensures Eval(data, views, YieldTree(before, after), None, page, 0)
         == if page.None? then Outcome(before, Some(YieldUnavailable)) else Outcome(before + page.value + after, None)
  {
    EvalAppend(data, views, TextNodes(before) + [YieldNode], TextNodes(after), None, page, 0);
    EvalAppend(data, views, TextNodes(before), [YieldNode], None, page, 0);
    OneNode(data, views, YieldNode, None, page, 0);
    OneNode(data, views, TextNode(before), None, page, 0);
    OneNode(data, views, TextNode(after), None, page, 0);
    hide EvalNode;
    assert before + "" == before;
  }

  /** Main result, from source text to page: in the layout `before{{yield}}after` a page stands between
      the two texts, if it renders to something; a page that fails leaves nothing but its error. */
  lemma {:induction false} PageStandsInLayout(data: Data, sources: Sources, path: Text, before: Text, after: Text)
    requires "layouts/application" in sources && sources["layouts/application"] == before + "{{yield}}" + after
    requires NoTag(before) && NoTag(after) && (before != "" ==> before[|before| - 1] != '{')
    ensures (var page := RenderToString(data, ParseLibrary(sources), path);
             RenderWithLayout(data, ParseLibrary(sources), path)
             == if page.error.Some? then Outcome("", page.error)
                else if page.text == "" then Outcome(before, Some(YieldUnavailable))
                else Outcome(before + page.text + after, None))
  {
    hide Lex, NoTag, RenderToString, RenderWithLayout, Eval, EvalView, YieldTree, SpellsAll, ParseLibrary, IsViewPath;
    var ns := YieldTree(before, after);
    YieldSourceSpells(before, after);
    LayoutPaths();
    var views := SourcesSpell(sources);
    views := RespelledLibrary(sources, views, "layouts/application", ns);
    RenderSourcesIsEval(data, sources, views, path);
    RenderSourcesPageIsEval(data, sources, views, path);
    var page := EvalView(data, views, path);
    YieldTreeShows(data, views, before, after, if page.text == "" then None else Some(page.text));
  }

  /** Main result: without a layout a page stands alone; with one that does not parse it is an error. */
  lemma {:induction false} PageWithoutLayout(data: Data, sources: Sources, path: Text)
    requires "layouts/application" in sources ==> ParseTemplate(sources["layouts/application"]).Failure?
    ensures (var page := RenderToString(data, ParseLibrary(sources), path);
             RenderWithLayout(data, ParseLibrary(sources), path)
             == if page.error.Some? then Outcome("", page.error)
                else if "layouts/application" in sources then Outcome("", Some(ViewBroken))
                else page)
  {
    hide RenderToString, ParseTemplate, Run, IsViewPath;
    LayoutPaths();
  }

  /** How rendering a view fails before it starts. */
  lemma {:induction false} ViewFails(data: Data, sources: Sources, path: Text)
    ensures (var r := RenderToString(data, ParseLibrary(sources), path);
             && (!SlashedName(path) ==> r == Outcome("", Some(InvalidViewPath)))
             && (SlashedName(path) && path !in sources ==> r == Outcome("", Some(ViewNotFound)))
             && (SlashedName(path) && path in sources && ParseTemplate(sources[path]).Failure? ==>
                   r == Outcome("", Some(ViewBroken))))
  {
    ViewPathIsSlashedName(path);
    hide SlashedName, IsViewPath, Run, ParseTemplate;
  }
}
