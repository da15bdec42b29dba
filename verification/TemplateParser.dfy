/** template_parse of src/view/template.c: a one-pass parser with an explicit section stack
    that back-patches the jumps of the instructions it has already emitted. */
module TemplateParser {
  import opened Texts
  import opened Templates
  import opened GrowableArrays

  datatype ErrorKind =
    | UnclosedTag
    | EmptyTag
    | InvalidSectionName
    | UnexpectedClose
    | MismatchedClose
    | InvalidPartialPath
    | InvalidExpression
    | UnclosedSection
    | OutOfMemory

  datatype ParseError = ParseError(kind: ErrorKind, offset: nat)

  // ---------- reading one tag or text ----------

  /** The token a trimmed, non-literal tag stands for. */
  function Classify(tag: Text): (r: Result<Token, ErrorKind>)
    ensures r.Success? ==> !r.value.TextToken? && TokenWellFormed(r.value)
  {
    if tag == "" then Failure(EmptyTag)
    else if tag == "yield" then Success(YieldToken)
    else if tag[0] == '#' || tag[0] == '^' then
      var name := Trim(tag[1..]);
      if IsVariablePath(name) then Success(OpenToken(tag[0] == '^', name)) else Failure(InvalidSectionName)
    else if tag[0] == '/' then
      var name := Trim(tag[1..]);
      if IsVariablePath(name) then Success(CloseToken(name)) else Failure(UnexpectedClose)
    else if tag[0] == '>' then
      var name := Trim(tag[1..]);
      if IsViewPath(name) then Success(PartialToken(name)) else Failure(InvalidPartialPath)
    else if IsVariablePath(tag) then Success(VariableToken(tag))
    else Failure(InvalidExpression)
  }

  /** The first token of `s` and the number of characters it takes up. */
  function ReadToken(s: Text): (r: Result<(Token, nat), ErrorKind>)
    requires s != ""
    ensures r.Success? ==> 0 < r.value.1 <= |s|
  {
    var marker := FindFrom(s, "{{", 0);
    if marker.None? then Success((TextToken(s), |s|))
    else if marker.value > 0 then Success((TextToken(s[..marker.value]), marker.value))
    else
      var close := FindFrom(s, "}}", 2);
      if close.None? then Failure(UnclosedTag)
      else
        var token := Classify(Trim(s[2..close.value]));
        if token.Failure? then Failure(token.error) else Success((token.value, close.value + 2))
  }

  // ---------- the section stack machine ----------

  datatype OpenSection = OpenSection(name: Text, index: nat)

  datatype ParserState = ParserState(program: Program, sections: seq<OpenSection>)

  predicate StackInProgram(st: ParserState) {
    forall k :: 0 <= k < |st.sections| ==> st.sections[k].index < |st.program|
  }

  function Emit(st: ParserState, kind: Kind, value: Text): ParserState {
    st.(program := st.program + [Instruction(kind, value, 0)])
  }

  /** What one token does to the emitted program and the section stack. */
  function Step(st: ParserState, t: Token): (r: Result<ParserState, ErrorKind>)
    requires StackInProgram(st)
    ensures r.Success? ==> StackInProgram(r.value)
  {
    match t
    case TextToken(text) => Success(Emit(st, TextKind, text))
    case VariableToken(path) => Success(Emit(st, VariableKind, path))
    case PartialToken(path) => Success(Emit(st, PartialKind, path))
    case YieldToken => Success(Emit(st, YieldKind, ""))
    case OpenToken(inverse, path) =>
      Success(Emit(st, SectionKindOf(inverse), path).(sections := st.sections + [OpenSection(path, |st.program|)]))
    case CloseToken(path) =>
      if st.sections == [] then Failure(UnexpectedClose)
      else
        var top := st.sections[|st.sections| - 1];
        if path != top.name then Failure(MismatchedClose)
        else Success(ParserState(st.program[top.index := st.program[top.index].(jump := |st.program|)],
                                 st.sections[..|st.sections| - 1]))
  }

  /** Parses the rest `s` of a source that starts at `offset`. */
  function ParseFrom(s: Text, offset: nat, st: ParserState): Result<Program, ParseError>
    requires StackInProgram(st)
    decreases |s|
  {
    if s == "" then
      if st.sections == [] then Success(st.program) else Failure(ParseError(UnclosedSection, offset))
    else
      match ReadToken(s)
      case Failure(kind) => Failure(ParseError(kind, offset))
      case Success((token, length)) =>
        match Step(st, token)
        case Failure(kind) => Failure(ParseError(kind, offset))
        case Success(next) => ParseFrom(s[length..], offset + length, next)
  }

  const START: ParserState := ParserState([], [])

  function ParseTemplate(source: Text): Result<Program, ParseError> {
    ParseFrom(source, 0, START)
  }

  // ---------- the loops of template.c ----------

  lemma {:induction false} VariablePathStep(value: Text, start: nat, cursor: nat)
    requires start <= cursor <= |value| && '.' !in value[start..cursor]
    requires cursor < |value| ==> value[cursor] == '.'
    ensures IsVariablePath(value[start..])
         == (IsIdentifier(value[start..cursor]) && (cursor == |value| || IsVariablePath(value[cursor + 1..])))
  {
    var rest := value[start..];
    assert rest[..cursor - start] == value[start..cursor];
    if cursor < |value| {
      FoundCharAt(rest, '.', cursor - start);
      assert rest[cursor - start + 1..] == value[cursor + 1..];
    } else {
      assert rest == value[start..cursor];
    }
  }

  lemma {:induction false} ViewPathStep(path: Text, start: nat, cursor: nat)
    requires start <= cursor <= |path| && '/' !in path[start..cursor]
    requires cursor < |path| ==> path[cursor] == '/'
    ensures IsViewPath(path[start..])
         == (IsPathSegment(path[start..cursor]) && (cursor == |path| || IsViewPath(path[cursor + 1..])))
  {
    var rest := path[start..];
    assert rest[..cursor - start] == path[start..cursor];
    if cursor < |path| {
      FoundCharAt(rest, '/', cursor - start);
      assert rest[cursor - start + 1..] == path[cursor + 1..];
    } else {
      assert rest == path[start..cursor];
    }
  }

  /** template_variable_path. */
  method CheckVariablePath(value: Text) returns (ok: bool)
    ensures ok == IsVariablePath(value)
  {
    hide IsVariablePath;
    VariablePathChars("");
    if value == "" {
      return false;
    }
    var cursor := 0;
    assert value[0..] == value;
    while cursor < |value|
      invariant cursor <= |value|
      invariant IsVariablePath(value) == (cursor == |value| || IsVariablePath(value[cursor..]))
    {
      var start := cursor;
      while cursor < |value| && value[cursor] != '.'
        invariant start <= cursor <= |value|
        invariant '.' !in value[start..cursor]
      {
        cursor := cursor + 1;
      }
      VariablePathStep(value, start, cursor);
      assert value[|value|..] == "";
      if !IsIdentifier(value[start..cursor]) {
        return false;
      }
      if cursor < |value| {
        cursor := cursor + 1;
        if cursor == |value| {
          return false;
        }
      }
    }
    return true;
  }

  /** The character loop of view_path_valid; a segment of dots holds no path character. */
  method CheckPathSegment(segment: Text) returns (ok: bool)
    ensures ok == IsPathSegment(segment)
  {
    if segment == "" || segment == "." || segment == ".." {
      assert segment != "" ==> !IsPathChar(segment[0]);
      return false;
    }
    var index := 0;
    while index < |segment|
      invariant index <= |segment| && forall i :: 0 <= i < index ==> IsPathChar(segment[i])
    {
      if !IsPathChar(segment[index]) {
        return false;
      }
      index := index + 1;
    }
    return true;
  }

  /** The inner loop of view_path_valid: the end of a segment, or none where a backslash stands in it. */
  method SegmentEnd(path: Text, start: nat) returns (end: Option<nat>)
    requires start <= |path|
    ensures end.None? ==> '\\' in path
    ensures end.Some? ==> start <= end.value <= |path| && '/' !in path[start..end.value]
    ensures end.Some? && end.value < |path| ==> path[end.value] == '/'
  {
    var cursor := start;
    while cursor < |path| && path[cursor] != '/'
      invariant start <= cursor <= |path|
      invariant '/' !in path[start..cursor]
    {
      if path[cursor] == '\\' {
        return None;
      }
      cursor := cursor + 1;
    }
    return Some(cursor);
  }

  /** view_path_valid. The checks made before the loop exclude nothing the loop would accept. */
  method CheckViewPath(path: Text) returns (ok: bool)
    ensures ok == IsViewPath(path)
  {
    hide IsViewPath;
    ViewPathChars(path);
    ViewPathChars("");
    if path == "" || path[0] == '/' || path[0] == '\\' || (|path| >= 2 && path[1] == ':') {
      return false;
    }
    var cursor := 0;
    assert path[0..] == path;
    while cursor < |path|
      invariant cursor <= |path|
      invariant IsViewPath(path) == (cursor == |path| || IsViewPath(path[cursor..]))
    {
      var start := cursor;
      var end := SegmentEnd(path, start);
      if end.None? {
        return false;
      }
      cursor := end.value;
      ViewPathStep(path, start, cursor);
      assert path[|path|..] == "";
      var valid := CheckPathSegment(path[start..cursor]);
      if !valid {
        return false;
      }
      if cursor < |path| {
        cursor := cursor + 1;
        if cursor == |path| {
          return false;
        }
      }
    }
    return true;
  }

  /** The tag branch of the parser: the token of a trimmed tag, or the error it reports. */
  method ReadTag(tag: Text) returns (r: Result<Token, ErrorKind>)
    ensures r == Classify(tag)
  {
    if |tag| == 0 {
      return Failure(EmptyTag);
    }
    if tag == "yield" {
      return Success(YieldToken);
    }
    if tag[0] == '#' || tag[0] == '^' {
      var name := Trim(tag[1..]);
      var ok := CheckVariablePath(name);
      return if ok then Success(OpenToken(tag[0] == '^', name)) else Failure(InvalidSectionName);
    }
    if tag[0] == '/' {
      var name := Trim(tag[1..]);
      var ok := CheckVariablePath(name);
      return if ok then Success(CloseToken(name)) else Failure(UnexpectedClose);
    }
    if tag[0] == '>' {
      var name := Trim(tag[1..]);
      var ok := CheckViewPath(name);
      return if ok then Success(PartialToken(name)) else Failure(InvalidPartialPath);
    }
    var ok := CheckVariablePath(tag);
    return if ok then Success(VariableToken(tag)) else Failure(InvalidExpression);
  }

  /** A text in front of the next tag, or up to the end, is read first. */
  lemma {:induction false} ReadTextThenTag(s: Text)
    requires s != ""
    ensures var found := FindFrom(s, "{{", 0);
            && (found.None? ==> ReadToken(s) == Success((TextToken(s[..|s|]), |s|)))
            && (found.Some? ==> FindFrom(s[found.value..], "{{", 0) == Some(0))
            && (found.Some? && found.value > 0 ==> ReadToken(s) == Success((TextToken(s[..found.value]), found.value)))
  {
    hide FindFrom, FindChar, Classify, TrimLeft, TrimRight;
    var found := FindFrom(s, "{{", 0);
    assert s[..|s|] == s;
    if found.Some? {
      assert s[found.value..][0..2] == s[found.value..found.value + 2];
      FoundAt(s[found.value..], "{{", 0, 0);
    }
  }

  lemma {:induction false} ParseEnd(s: Text, offset: nat, st: ParserState)
    requires s == "" && StackInProgram(st)
    ensures ParseFrom(s, offset, st)
         == if st.sections == [] then Success(st.program) else Failure(ParseError(UnclosedSection, offset))
  {
  }

  lemma {:induction false} StepText(st: ParserState, text: Text)
    requires StackInProgram(st)
    ensures Step(st, TextToken(text)) == Success(Emit(st, TextKind, text))
  {
  }

  ghost function StateOf(instructions: GrowableArray<Instruction>, sections: GrowableArray<OpenSection>): ParserState
    requires instructions.Valid() && sections.Valid()
    reads instructions, instructions.items, sections, sections.items
  {
    ParserState(instructions.Contents(), sections.Contents())
  }

  /** The instruction a tag other than a closing one emits; jumps are patched later. */
  function TagInstruction(t: Token): Instruction
    requires !t.TextToken? && !t.CloseToken?
  {
    match t
    case VariableToken(path) => Instruction(VariableKind, path, 0)
    case OpenToken(inverse, path) => Instruction(SectionKindOf(inverse), path, 0)
    case PartialToken(path) => Instruction(PartialKind, path, 0)
    case YieldToken => Instruction(YieldKind, "", 0)
  }

  /** The part of the loop that acts on a tag: emits an instruction, opens a section, or closes
      the innermost one and patches its jump. */
  method ApplyTag(token: Token, instructions: GrowableArray<Instruction>, sections: GrowableArray<OpenSection>)
    returns (error: Option<ErrorKind>)
    requires !token.TextToken?
    requires instructions.Valid() && sections.Valid() && instructions.items as object != sections.items
    requires StackInProgram(StateOf(instructions, sections))
    modifies instructions, instructions.items, sections, sections.items
    ensures instructions.Valid() && sections.Valid()
    ensures instructions.items == old(instructions.items) || fresh(instructions.items)
    ensures sections.items == old(sections.items) || fresh(sections.items)
    ensures instructions.items as object != sections.items
    ensures instructions.length <= old(instructions.length) + 1 && sections.length <= old(sections.length) + 1
    ensures error.None? ==>
              Step(old(StateOf(instructions, sections)), token) == Success(StateOf(instructions, sections))
    ensures error.Some? ==>
              || (error.value == OutOfMemory && old(instructions.MayFail() || sections.MayFail()))
              || Step(old(StateOf(instructions, sections)), token) == Failure(error.value)
  {
    if token.CloseToken? {
      if sections.length == 0 {
        return Some(UnexpectedClose);
      }
      var top := sections.items[sections.length - 1];
      assert top == sections.Contents()[sections.length - 1];
      if token.path != top.name {
        return Some(MismatchedClose);
      }
      var opening := instructions.items[top.index];
      instructions.SetAt(top.index, opening.(jump := instructions.length));
      sections.Pop();
      return None;
    }
    var pushed := instructions.Push(TagInstruction(token));
    if pushed && token.OpenToken? {
      pushed := sections.Push(OpenSection(token.path, instructions.length - 1));
    }
    return if pushed then None else Some(OutOfMemory);
  }

  /** What both halves of the loop body promise: they move the parse forward without changing
      its outcome, report the error it ends in, or run out of memory. */
  ghost predicate Advanced(source: Text, cursor: nat, before: ParserState, next: nat, after: ParserState,
                           error: Option<ParseError>, mayFail: bool)
    requires cursor <= |source| && StackInProgram(before)
  {
    var outcome := ParseFrom(source[cursor..], cursor, before);
    && (error.None? ==>
          cursor <= next <= |source| && StackInProgram(after) && outcome == ParseFrom(source[next..], next, after))
    && (error.Some? && !(error.value.kind == OutOfMemory && mayFail) ==> outcome == Failure(error.value))
  }

  /** The first half of the loop body: emits the text in front of the next tag. */
  method ParseText(source: Text, cursor: nat, length: nat, instructions: GrowableArray<Instruction>,
                   ghost sections: GrowableArray<OpenSection>)
    returns (error: Option<ParseError>)
    requires cursor < cursor + length <= |source|
    requires ReadToken(source[cursor..]) == Success((TextToken(source[cursor..][..length]), length))
    requires instructions.Valid() && sections.Valid() && instructions.items as object != sections.items
    requires StackInProgram(StateOf(instructions, sections))
    modifies instructions, instructions.items
    ensures instructions.items == old(instructions.items) || fresh(instructions.items)
    ensures instructions.Valid() && instructions.length <= old(instructions.length) + 1
    ensures Advanced(source, cursor, old(StateOf(instructions, sections)),
                     cursor + length, StateOf(instructions, sections), error, old(instructions.MayFail()))
  {
    hide ReadToken;
    var text := source[cursor..][..length];
    StepText(StateOf(instructions, sections), text);
    var pushed := instructions.Push(Instruction(TextKind, text, 0));
    assert source[cursor..][length..] == source[cursor + length..];
    return if pushed then None else Some(ParseError(OutOfMemory, cursor));
  }

  /** The second half of the loop body: the tag whose braces open at `marker`. */
  method ParseTag(source: Text, marker: nat, instructions: GrowableArray<Instruction>,
                  sections: GrowableArray<OpenSection>)
    returns (next: nat, error: Option<ParseError>)
    requires marker + 2 <= |source| && FindFrom(source[marker..], "{{", 0) == Some(0)
    requires instructions.Valid() && sections.Valid() && instructions.items as object != sections.items
    requires StackInProgram(StateOf(instructions, sections))
    modifies instructions, instructions.items, sections, sections.items
    ensures instructions.items == old(instructions.items) || fresh(instructions.items)
    ensures sections.items == old(sections.items) || fresh(sections.items)
    ensures instructions.items as object != sections.items
    ensures error.None? ==> marker < next
    ensures instructions.Valid() && sections.Valid()
    ensures instructions.length <= old(instructions.length) + 1 && sections.length <= old(sections.length) + 1
    ensures Advanced(source, marker, old(StateOf(instructions, sections)),
                     next, StateOf(instructions, sections), error, old(instructions.MayFail() || sections.MayFail()))
  {
    hide FindFrom, Classify, Step, TrimLeft, TrimRight;
    var tail := source[marker..];
    var closing := Find(tail, "}}", 2);
    if closing.None? {
      return marker, Some(ParseError(UnclosedTag, marker));
    }
    var read := ReadTag(Trim(tail[2..closing.value]));
    if read.Failure? {
      return marker, Some(ParseError(read.error, marker));
    }
    next := marker + closing.value + 2;
    assert ReadToken(tail) == Success((read.value, closing.value + 2));
    assert tail[closing.value + 2..] == source[next..];
    var failed := ApplyTag(read.value, instructions, sections);
    error := if failed.Some? then Some(ParseError(failed.value, marker)) else None;
  }

  const INSTRUCTION_SIZE: nat := 32
  const SECTION_SIZE: nat := 24

  /** Only such a source can have more instructions than an array has room for. */
  predicate TooLong(source: Text) {
    2 * |source| > SIZE_MAX / INSTRUCTION_SIZE
  }

  /** One turn of the loop: the text up to the next tag, and the tag. */
  method ParseNext(source: Text, cursor: nat, instructions: GrowableArray<Instruction>,
                   sections: GrowableArray<OpenSection>)
    returns (next: nat, error: Option<ParseError>)
    requires cursor < |source|
    requires instructions.Valid() && sections.Valid() && instructions.items as object != sections.items
    requires instructions.itemSize == INSTRUCTION_SIZE && sections.itemSize == SECTION_SIZE
    requires instructions.length <= cursor && sections.length <= cursor
    requires StackInProgram(StateOf(instructions, sections))
    modifies instructions, instructions.items, sections, sections.items
    ensures instructions.items == old(instructions.items) || fresh(instructions.items)
    ensures sections.items == old(sections.items) || fresh(sections.items)
    ensures instructions.items as object != sections.items
    ensures instructions.Valid() && sections.Valid()
    ensures error.None? ==> cursor < next && instructions.length <= next && sections.length <= next
    ensures Advanced(source, cursor, old(StateOf(instructions, sections)), next, StateOf(instructions, sections), error,
                     instructions.mayRefuse || sections.mayRefuse || TooLong(source))
  {
    hide ReadToken, ParseFrom, FindFrom, Step, StackInProgram;
    error := None;
    next := cursor;
    var found := Find(source[cursor..], "{{", 0);
    var length := if found.Some? then found.value else |source| - cursor;
    ReadTextThenTag(source[cursor..]);
    assert found.Some? ==> source[cursor..][length..] == source[cursor + length..];
    if length > 0 {
      error := ParseText(source, cursor, length, instructions, sections);
      next := cursor + length;
    }
    if error.None? && found.Some? {
      next, error := ParseTag(source, next, instructions, sections);
    }
  }

  /** template_parse gives what ParseTemplate says; only an arena that may refuse a block, or a
      source of a length that no memory holds, can make it fail for want of memory instead. */
  method Parse(source: Text, mayRefuse: bool) returns (r: Result<Program, ParseError>)
    ensures r == ParseTemplate(source)
         || ((mayRefuse || TooLong(source)) && r.Failure? && r.error.kind == OutOfMemory)
  {
    hide ReadToken, ParseFrom, FindFrom, Step;
    var instructions := new GrowableArray<Instruction>(16, INSTRUCTION_SIZE, mayRefuse);
    var sections := new GrowableArray<OpenSection>(8, SECTION_SIZE, mayRefuse);
    var cursor := 0;
    assert source[0..] == source;
    while cursor < |source|
      invariant cursor <= |source|
      invariant instructions.Valid() && sections.Valid()
      invariant fresh(instructions) && fresh(instructions.items) && fresh(sections) && fresh(sections.items)
      invariant instructions.items as object != sections.items
      invariant instructions.length <= cursor && sections.length <= cursor
      invariant StackInProgram(StateOf(instructions, sections))
      invariant ParseTemplate(source) == ParseFrom(source[cursor..], cursor, StateOf(instructions, sections))
    {
      var next, error := ParseNext(source, cursor, instructions, sections);
      if error.Some? {
        return Failure(error.value);
      }
      cursor := next;
    }
    ParseEnd(source[cursor..], cursor, StateOf(instructions, sections));
    if sections.length != 0 {
      return Failure(ParseError(UnclosedSection, |source|));
    }
    return Success(instructions.items[..instructions.length]);
  }
}
