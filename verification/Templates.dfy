/** Templates: the flat program of src/view/template.c and the nested tree it stands for. */
module Templates {
  import opened Texts

  // ---------- names ----------

  predicate IsIdentStart(c: char) {
    'a' <= c <= 'z' || 'A' <= c <= 'Z' || c == '_'
  }

  predicate IsIdentChar(c: char) {
    IsIdentStart(c) || '0' <= c <= '9'
  }

  /** template_identifier. */
  predicate IsIdentifier(s: Text) {
    s != "" && IsIdentStart(s[0]) && forall i :: 0 < i < |s| ==> IsIdentChar(s[i])
  }

  /** A variable path is one identifier, or an identifier, a dot and a variable path. */
  predicate IsVariablePath(s: Text)
    decreases |s|
  {
    var dot := FindChar(s, '.');
    if dot.None? then IsIdentifier(s)
    else IsIdentifier(s[..dot.value]) && IsVariablePath(s[dot.value + 1..])
  }

  predicate IsPathChar(c: char) {
    'a' <= c <= 'z' || 'A' <= c <= 'Z' || '0' <= c <= '9' || c == '_' || c == '-'
  }

  predicate IsPathSegment(s: Text) {
    s != "" && forall i :: 0 <= i < |s| ==> IsPathChar(s[i])
  }

  /** A view path is one or more segments joined by slashes. */
  predicate IsViewPath(s: Text)
    decreases |s|
  {
    var slash := FindChar(s, '/');
    if slash.None? then IsPathSegment(s)
    else IsPathSegment(s[..slash.value]) && IsViewPath(s[slash.value + 1..])
  }

  lemma {:induction false} VariablePathChars(s: Text)
    ensures IsVariablePath(s) ==> s != "" && IsIdentStart(s[0])
    ensures IsVariablePath(s) ==> forall i :: 0 <= i < |s| ==> IsIdentChar(s[i]) || s[i] == '.'
    ensures IsVariablePath(s) ==> IsIdentChar(s[|s| - 1])
    decreases |s|
  {
    var dot := FindChar(s, '.');
    if dot.Some? {
      var rest := s[dot.value + 1..];
      VariablePathChars(rest);
      assert s == s[..dot.value] + ['.'] + rest;
    }
  }

  lemma {:induction false} ViewPathChars(s: Text)
    ensures IsViewPath(s) ==> s != "" && IsPathChar(s[0])
    ensures IsViewPath(s) ==> forall i :: 0 <= i < |s| ==> IsPathChar(s[i]) || s[i] == '/'
    ensures IsViewPath(s) ==> IsPathChar(s[|s| - 1])
    decreases |s|
  {
    var slash := FindChar(s, '/');
    if slash.Some? {
      var rest := s[slash.value + 1..];
      ViewPathChars(rest);
      assert s == s[..slash.value] + ['/'] + rest;
    }
  }

  // ---------- flat programs ----------

  datatype Kind = TextKind | VariableKind | SectionKind | InverseSectionKind | PartialKind | YieldKind

  datatype Instruction = Instruction(kind: Kind, value: Text, jump: nat)

  type Program = seq<Instruction>

  // ---------- trees ----------

  datatype Node =
    | TextNode(text: Text)
    | VariableNode(path: Text)
    | SectionNode(inverse: bool, path: Text, body: seq<Node>)
    | PartialNode(path: Text)
    | YieldNode

  /** The number of instructions a node compiles to. */
  function SizeNode(n: Node): nat
    decreases n, 1
  {
    if n.SectionNode? then 1 + Size(n.body) else 1
  }

  function Size(ns: seq<Node>): nat
    decreases ns, 0
  {
    if ns == [] then 0 else SizeNode(ns[0]) + Size(ns[1..])
  }

  function SectionKindOf(inverse: bool): Kind {
    if inverse then InverseSectionKind else SectionKind
  }

  /** The instructions of `n` when the first of them sits at index `base`; a section
      instruction jumps to the first instruction after its body. */
  function FlattenNode(n: Node, base: nat): (r: Program)
    ensures |r| == SizeNode(n)
    decreases n, 1
  {
    match n
    case TextNode(text) => [Instruction(TextKind, text, 0)]
    case VariableNode(path) => [Instruction(VariableKind, path, 0)]
    case PartialNode(path) => [Instruction(PartialKind, path, 0)]
    case YieldNode => [Instruction(YieldKind, "", 0)]
    case SectionNode(inverse, path, body) =>
      [Instruction(SectionKindOf(inverse), path, base + 1 + Size(body))] + Flatten(body, base + 1)
  }

  function Flatten(ns: seq<Node>, base: nat): (r: Program)
    ensures |r| == Size(ns)
    decreases ns, 0
  {
    if ns == [] then [] else FlattenNode(ns[0], base) + Flatten(ns[1..], base + SizeNode(ns[0]))
  }

  lemma {:induction false} SizeAppend(a: seq<Node>, b: seq<Node>)
    ensures Size(a + b) == Size(a) + Size(b)
  {
    if a == [] {
      assert a + b == b;
    } else {
      assert (a + b)[1..] == a[1..] + b;
      SizeAppend(a[1..], b);
    }
  }

  lemma {:induction false} FlattenAppend(a: seq<Node>, b: seq<Node>, base: nat)
    ensures Flatten(a + b, base) == Flatten(a, base) + Flatten(b, base + Size(a))
  {
    if a == [] {
      assert a + b == b;
    } else {
      assert (a + b)[1..] == a[1..] + b;
      FlattenAppend(a[1..], b, base + SizeNode(a[0]));
    }
  }

  // ---------- concrete syntax ----------

  datatype Token =
    | TextToken(text: Text)
    | VariableToken(path: Text)
    | OpenToken(inverse: bool, path: Text)
    | CloseToken(path: Text)
    | PartialToken(path: Text)
    | YieldToken

  function TokensOfNode(n: Node): seq<Token>
    decreases n, 1
  {
    match n
    case TextNode(text) => [TextToken(text)]
    case VariableNode(path) => [VariableToken(path)]
    case PartialNode(path) => [PartialToken(path)]
    case YieldNode => [YieldToken]
    case SectionNode(inverse, path, body) =>
      [OpenToken(inverse, path)] + TokensOf(body) + [CloseToken(path)]
  }

  /** The tags and texts of a template in source order. */
  function TokensOf(ns: seq<Node>): seq<Token>
    decreases ns, 0
  {
    if ns == [] then [] else TokensOfNode(ns[0]) + TokensOf(ns[1..])
  }

  lemma {:induction false} TokensAppend(a: seq<Node>, b: seq<Node>)
    ensures TokensOf(a + b) == TokensOf(a) + TokensOf(b)
  {
    if a == [] {
      assert a + b == b;
    } else {
      assert (a + b)[1..] == a[1..] + b;
      TokensAppend(a[1..], b);
    }
  }

  /** What stands between the braces of a tag. */
  function TagText(t: Token): Text
    requires !t.TextToken?
  {
    match t
    case VariableToken(path) => path
    case OpenToken(inverse, path) => (if inverse then "^" else "#") + path
    case CloseToken(path) => "/" + path
    case PartialToken(path) => ">" + path
    case YieldToken => "yield"
  }

  function PrintToken(t: Token): Text {
    if t.TextToken? then t.text else "{{" + TagText(t) + "}}"
  }

  function PrintTokens(ts: seq<Token>): Text {
    if ts == [] then "" else PrintToken(ts[0]) + PrintTokens(ts[1..])
  }

  /** The source text of a template tree. */
  function Print(ns: seq<Node>): Text {
    PrintTokens(TokensOf(ns))
  }

  /** Names the parser accepts; a variable called `yield` is the yield tag instead. */
  predicate TokenWellFormed(t: Token) {
    match t
    case TextToken(text) => text != "" && FindFrom(text, "{{", 0).None?
    case VariableToken(path) => IsVariablePath(path) && path != "yield"
    case OpenToken(_, path) => IsVariablePath(path)
    case CloseToken(path) => IsVariablePath(path)
    case PartialToken(path) => IsViewPath(path)
    case YieldToken => true
  }

  /** Two texts never stand side by side, and a text before a tag does not end in a brace. */
  predicate CanFollow(a: Token, b: Token) {
    a.TextToken? ==> !b.TextToken? && (a.text != "" ==> a.text[|a.text| - 1] != '{')
  }

  predicate Printable(ts: seq<Token>) {
    && (forall i :: 0 <= i < |ts| ==> TokenWellFormed(ts[i]))
    && (forall i :: 0 <= i < |ts| - 1 ==> CanFollow(ts[i], ts[i + 1]))
  }

  /** A tree whose printed form can only be read in one way. */
  predicate WellFormed(ns: seq<Node>) {
    Printable(TokensOf(ns))
  }
}
