/** Rendering: the interpreter of src/view/view.c on flat programs, and the meaning of the
    template trees those programs come from. */
module Views {
  import opened Texts
  import opened Templates
  import opened Numbers

  const MAX_NESTING: nat := 64

  // ---------- values ----------

  datatype Scalar = StringScalar(text: Text) | IntScalar(i: int) | BoolScalar(b: bool)

  /** A record is the fields its model definition lets a view read. */
  type Record = map<Text, Scalar>

  /** `ModelValue(None)` is a null record. `CollectionValue` carries whether its definition is
      usable and its items are present, which view.c checks before it iterates. */
  datatype Value =
    | EmptyValue
    | ScalarValue(scalar: Scalar)
    | ModelValue(record: Option<Record>)
    | CollectionValue(items: seq<Record>, usable: bool)

  type Data = map<Text, Value>

  datatype RenderError =
    | InvalidProgram
    | InvalidJump
    | UnknownValue(path: Text)
    | NotRenderable
    | YieldUnavailable
    | InvalidCollection
    | NestingExceeded
    | InvalidViewPath
    | ViewNotFound
    | ViewBroken
    | NoMemory

  /** The text appended so far, and the error that stopped the rendering, if any. */
  datatype Outcome = Outcome(text: Text, error: Option<RenderError>)

  const DONE: Outcome := Outcome("", None)

  function Fail(e: RenderError): Outcome {
    Outcome("", Some(e))
  }

  function Then(a: Outcome, b: Outcome): Outcome {
    if a.error.Some? then a else Outcome(a.text + b.text, b.error)
  }

  lemma ThenAssociative(a: Outcome, b: Outcome, c: Outcome)
    ensures Then(Then(a, b), c) == Then(a, Then(b, c))
    ensures Then(a, DONE) == a && Then(DONE, a) == a
  {
    assert a.text + b.text + c.text == a.text + (b.text + c.text);
    assert a.text + "" == a.text && "" + a.text == a.text;
  }

  // ---------- looking values up and showing them ----------

  function EscapeChar(c: char): Text {
    if c == '&' then "&amp;"
    else if c == '<' then "&lt;"
    else if c == '>' then "&gt;"
    else if c == '"' then "&quot;"
    else if c == '\'' then "&#39;"
    else [c]
  }

  function EscapeHtml(s: Text): Text {
    if s == "" then "" else EscapeChar(s[0]) + EscapeHtml(s[1..])
  }

  /** view_name_valid: the names view_get answers to. */
  predicate IsDataName(s: Text) {
    s != "" && forall i :: 0 <= i < |s| ==> IsIdentChar(s[i]) || s[i] == '.'
  }

  function DataValue(data: Data, name: Text): Option<Value> {
    if IsDataName(name) && name in data then Some(data[name]) else None
  }

  function FieldValue(record: Option<Record>, name: Text): Option<Value> {
    if record.Some? && name in record.value then Some(ScalarValue(record.value[name])) else None
  }

  /** view_resolve: an undotted name is looked up in the current item first; a dotted one is a
      field of a page value, whatever the current item. */
  function Resolve(data: Data, path: Text, scope: Option<Record>): Option<Value> {
    var dot := FindChar(path, '.');
    if dot.None? then
      var field := FieldValue(scope, path);
      if field.Some? then field else DataValue(data, path)
    else
      var root := DataValue(data, path[..dot.value]);
      var name := path[dot.value + 1..];
      if root.None? || name == "" || FindChar(name, '.').Some? || !root.value.ModelValue? then None
      else FieldValue(root.value.record, name)
  }

  predicate Truthy(v: Value) {
    match v
    case EmptyValue => false
    case ScalarValue(StringScalar(text)) => text != ""
    case ScalarValue(IntScalar(i)) => i != 0
    case ScalarValue(BoolScalar(b)) => b
    case ModelValue(record) => record.Some?
    case CollectionValue(items, _) => items != []
  }

  /** view_render_value. */
  function Show(v: Value): Option<Text> {
    match v
    case EmptyValue => Some("")
    case ScalarValue(StringScalar(text)) => Some(EscapeHtml(text))
    case ScalarValue(IntScalar(i)) => Some(Decimal(i))
    case ScalarValue(BoolScalar(b)) => Some(if b then "true" else "false")
    case _ => None
  }

  function ShowVariable(data: Data, path: Text, scope: Option<Record>): Outcome {
    match Resolve(data, path, scope)
    case None => Fail(UnknownValue(path))
    case Some(v) =>
      match Show(v)
      case None => Fail(NotRenderable)
      case Some(text) => Outcome(text, None)
  }

  function ShowYield(yielded: Option<Text>): Outcome {
    if yielded.None? then Fail(YieldUnavailable) else Outcome(yielded.value, None)
  }

  // ---------- what loading a view gives ----------

  /** A view that is absent from the map is missing everywhere; `Broken` is one whose source
      does not parse. */
  datatype Loaded<T> = Good(content: T) | Broken

  type Library<T> = map<Text, Loaded<T>>

  function Load<T>(views: Library<T>, path: Text): Result<T, RenderError> {
    if !IsViewPath(path) then Failure(InvalidViewPath)
    else if path !in views then Failure(ViewNotFound)
    else if views[path].Broken? then Failure(ViewBroken)
    else Success(views[path].content)
  }

  // ---------- the interpreter ----------

  function Budget(depth: nat): nat {
    if depth <= MAX_NESTING then MAX_NESTING - depth else 0
  }

  /** view_render_program on the instructions from `start` up to `end`. */
  function Run(data: Data, views: Library<Program>, p: Program, start: nat, end: nat, scope: Option<Record>,
               yielded: Option<Text>, depth: nat): Outcome
    decreases Budget(depth), if start <= end then end - start else 0, 2, 0
  {
    if depth > MAX_NESTING || end > |p| || start > end then Fail(InvalidProgram)
    else RunFrom(data, views, p, start, end, scope, yielded, depth)
  }

  /** The instruction loop once it has reached `index`. */
  function RunFrom(data: Data, views: Library<Program>, p: Program, index: nat, end: nat, scope: Option<Record>,
                   yielded: Option<Text>, depth: nat): Outcome
    requires index <= end <= |p| && depth <= MAX_NESTING
    decreases Budget(depth), end - index, 1, 0
  {
    if index == end then DONE
    else
      var ins := p[index];
      if ins.kind.TextKind? then
        Then(Outcome(ins.value, None), RunFrom(data, views, p, index + 1, end, scope, yielded, depth))
      else if ins.kind.VariableKind? then
        Then(ShowVariable(data, ins.value, scope), RunFrom(data, views, p, index + 1, end, scope, yielded, depth))
      else if ins.kind.PartialKind? then
        Then(RunPartial(data, views, ins.value, scope, depth),
             RunFrom(data, views, p, index + 1, end, scope, yielded, depth))
      else if ins.kind.YieldKind? then
        Then(ShowYield(yielded), RunFrom(data, views, p, index + 1, end, scope, yielded, depth))
      else
        var inverse := ins.kind.InverseSectionKind?;
        var value := Resolve(data, ins.value, scope);
        if value.None? then Fail(UnknownValue(ins.value))
        else if ins.jump < index + 1 || ins.jump > end then Fail(InvalidJump)
        else
          var taken := Truthy(value.value) != inverse;
          var body :=
            if taken && value.value.CollectionValue? && !inverse then
              if !value.value.usable then Fail(InvalidCollection)
              else RunItems(data, views, p, index + 1, ins.jump, value.value.items, yielded, depth)
            else if taken then Run(data, views, p, index + 1, ins.jump, scope, yielded, depth)
            else DONE;
          Then(body, RunFrom(data, views, p, ins.jump, end, scope, yielded, depth))
  }

  /** A collection section: its body once for every item, with the item as scope. */
  function RunItems(data: Data, views: Library<Program>, p: Program, start: nat, end: nat, items: seq<Record>,
                    yielded: Option<Text>, depth: nat): Outcome
    decreases Budget(depth), if start <= end then end - start else 0, 3, |items|
  {
    if items == [] then DONE
    else Then(Run(data, views, p, start, end, Some(items[0]), yielded, depth),
              RunItems(data, views, p, start, end, items[1..], yielded, depth))
  }

  /** view_render_partial: the scope is handed on, the yielded body is not. */
  function RunPartial(data: Data, views: Library<Program>, path: Text, scope: Option<Record>, depth: nat): Outcome
    decreases Budget(depth), 0, 0, 0
  {
    if depth >= MAX_NESTING then Fail(NestingExceeded)
    else
      match Load(views, path)
      case Failure(e) => Fail(e)
      case Success(p) => Run(data, views, p, 0, |p|, scope, None, depth + 1)
  }

  /** view_render_to_string. */
  function RenderToString(data: Data, views: Library<Program>, path: Text): Outcome {
    match Load(views, path)
    case Failure(e) => Fail(e)
    case Success(p) => Run(data, views, p, 0, |p|, None, None, 0)
  }

  const LAYOUT: Text := "layouts/application"

  /** view_render_with_layout: the page is rendered first and handed to the layout. A page that
      rendered to nothing has no buffer, so the layout finds nothing to yield. */
  function RenderWithLayout(data: Data, views: Library<Program>, path: Text): Outcome {
    var page := RenderToString(data, views, path);
    if page.error.Some? then Fail(page.error.value)
    else
      match Load(views, LAYOUT)
      case Failure(ViewNotFound) => page
      case Failure(e) => Fail(e)
      case Success(p) => Run(data, views, p, 0, |p|, None, if page.text == "" then None else Some(page.text), 0)
  }

  // ---------- the meaning of a tree ----------

  /** What a forest of template nodes means. Sections nest as the tree does, so there are no
      jumps that could be wrong. */
  function Eval(data: Data, views: Library<seq<Node>>, ns: seq<Node>, scope: Option<Record>,
                yielded: Option<Text>, depth: nat): Outcome
    requires depth <= MAX_NESTING
    decreases MAX_NESTING - depth, ns, 1, 0
  {
    if ns == [] then DONE
    else Then(EvalNode(data, views, ns[0], scope, yielded, depth), Eval(data, views, ns[1..], scope, yielded, depth))
  }

  function EvalNode(data: Data, views: Library<seq<Node>>, n: Node, scope: Option<Record>,
                    yielded: Option<Text>, depth: nat): Outcome
    requires depth <= MAX_NESTING
    decreases MAX_NESTING - depth, n, 3, 0
  {
    match n
    case TextNode(text) => Outcome(text, None)
    case VariableNode(path) => ShowVariable(data, path, scope)
    case YieldNode => ShowYield(yielded)
    case PartialNode(path) =>
      if depth == MAX_NESTING then Fail(NestingExceeded)
      else
        (match Load(views, path)
         case Failure(e) => Fail(e)
         case Success(ns) => Eval(data, views, ns, scope, None, depth + 1))
    case SectionNode(inverse, path, body) =>
      match Resolve(data, path, scope)
      case None => Fail(UnknownValue(path))
      case Some(v) =>
        if Truthy(v) == inverse then DONE
        else if !v.CollectionValue? || inverse then Eval(data, views, body, scope, yielded, depth)
        else if !v.usable then Fail(InvalidCollection)
        else EvalItems(data, views, body, v.items, yielded, depth)
  }

  function EvalItems(data: Data, views: Library<seq<Node>>, body: seq<Node>, items: seq<Record>,
                     yielded: Option<Text>, depth: nat): Outcome
    requires depth <= MAX_NESTING
    decreases MAX_NESTING - depth, body, 2, |items|
  {
    if items == [] then DONE
    else Then(Eval(data, views, body, Some(items[0]), yielded, depth),
              EvalItems(data, views, body, items[1..], yielded, depth))
  }
}
