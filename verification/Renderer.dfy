/** The rendering loops of src/view/view.c, appending to one output buffer. */
module Renderer {
  import opened Texts
  import opened Outputs
  import opened Templates
  import opened Views

  /** The buffer and the returned error are those of `expected`; only running out of memory may
      end the rendering with another error. */
  ghost predicate Renders(before: Text, output: Output, error: Option<RenderError>, expected: Outcome)
    reads output
  {
    if output.exhausted then output.mayRefuse && error.Some?
    else output.text == before + expected.text && error == expected.error
  }

  /** Taking one step moves its text from the rest of a rendering to what has been emitted. */
  lemma Accumulate(start: Text, emitted: Text, now: Text, step: Outcome, rest: Outcome, whole: Outcome)
    requires now == start + emitted + step.text && whole == Then(Outcome(emitted, None), Then(step, rest))
    ensures now == start + (emitted + step.text)
    ensures step.error.Some? ==> whole == Outcome(emitted + step.text, step.error)
    ensures step.error.None? ==> whole == Then(Outcome(emitted + step.text, None), rest)
  {
    ThenAssociative(Outcome(emitted, None), step, rest);
  }

  lemma {:induction false} EscapeSnoc(s: Text, c: char)
    ensures EscapeHtml(s + [c]) == EscapeHtml(s) + EscapeChar(c)
  {
    hide EscapeChar;
    if s == "" {
      assert "" + [c] == [c] && [c][1..] == "";
      assert EscapeChar(c) + "" == EscapeChar(c) == "" + EscapeChar(c);
    } else {
      EscapeSnoc(s[1..], c);
      assert (s + [c])[1..] == s[1..] + [c];
      assert EscapeChar(s[0]) + (EscapeHtml(s[1..]) + EscapeChar(c))
          == EscapeChar(s[0]) + EscapeHtml(s[1..]) + EscapeChar(c);
    }
  }

  /** html_escape_append. */
  method AppendEscaped(value: Text, output: Output) returns (ok: bool)
    requires !output.exhausted
    modifies output
    ensures ok ==> !output.exhausted && output.text == old(output.text) + EscapeHtml(value)
    ensures !ok ==> output.exhausted && output.mayRefuse
  {
    hide EscapeHtml, EscapeChar;
    EscapeNothing();
    assert output.text + "" == output.text;
    for index := 0 to |value|
      invariant !output.exhausted && output.text == old(output.text) + EscapeHtml(value[..index])
    {
      ok := output.Append(EscapeChar(value[index]));
      if !ok {
        return;
      }
      EscapeSnoc(value[..index], value[index]);
      assert value[..index + 1] == value[..index] + [value[index]];
    }
    assert value[..|value|] == value;
    ok := true;
  }

  lemma {:induction false} EscapeNothing()
    ensures EscapeHtml("") == ""
  {
  }

  /** view_render_value, and the lookup in front of it; view.c reports a failed append like a
      value that cannot be shown. */
  method RenderVariable(data: Data, path: Text, scope: Option<Record>, output: Output)
    returns (error: Option<RenderError>)
    requires !output.exhausted
    modifies output
    ensures Renders(old(output.text), output, error, ShowVariable(data, path, scope))
  {
    hide EscapeHtml;
    var value := Resolve(data, path, scope);
    if value.None? {
      assert output.text + "" == output.text;
      return Some(UnknownValue(path));
    }
    var shown := Show(value.value);
    if shown.None? {
      assert output.text + "" == output.text;
      return Some(NotRenderable);
    }
    var ok;
    if value.value.ScalarValue? && value.value.scalar.StringScalar? {
      ok := AppendEscaped(value.value.scalar.text, output);
    } else {
      ok := output.Append(shown.value);
    }
    return if ok then None else Some(NotRenderable);
  }

  /** view_render_program. */
  method RenderProgram(data: Data, views: Library<Program>, p: Program, start: nat, end: nat, scope: Option<Record>,
                       output: Output, yielded: Option<Text>, depth: nat)
    returns (error: Option<RenderError>)
    requires !output.exhausted
    modifies output
    ensures Renders(old(output.text), output, error,
                    Run(data, views, p, start, end, scope, yielded, depth))
    decreases Budget(depth), if start <= end then end - start else 0, 2
  {
    hide RunFrom, RunOne, Then;
    assert output.text + "" == output.text;
    if depth > MAX_NESTING || end > |p| || start > end {
      return Some(InvalidProgram);
    }
    ghost var emitted := "";
    ghost var whole := RunFrom(data, views, p, start, end, scope, yielded, depth);
    ThenAssociative(whole, DONE, DONE);
    var index := start;
    while index < end
      invariant start <= index <= end
      invariant !output.exhausted && output.text == old(output.text) + emitted
      invariant whole == Then(Outcome(emitted, None), RunFrom(data, views, p, index, end, scope, yielded, depth))
    {
      var failed, next := RenderInstruction(data, views, p, index, end, scope, output, yielded, depth);
      ghost var step, rest := StepOutcome(data, views, p, index, end, scope, yielded, depth);
      if !output.exhausted {
        Accumulate(old(output.text), emitted, output.text, step, rest, whole);
        emitted := emitted + step.text;
      }
      if failed.Some? {
        return failed;
      }
      index := next;
    }
    ThenAssociative(Outcome(emitted, None), DONE, DONE);
    RunFromEnd(data, views, p, end, scope, yielded, depth);
    return None;
  }

  lemma RunFromEnd(data: Data, views: Library<Program>, p: Program, end: nat, scope: Option<Record>,
                   yielded: Option<Text>, depth: nat)
    requires end <= |p| && depth <= MAX_NESTING
    ensures RunFrom(data, views, p, end, end, scope, yielded, depth) == DONE
  {
  }

  /** One instruction of the loop splits the rest of the run in two. */
  lemma StepOutcome(data: Data, views: Library<Program>, p: Program, index: nat, end: nat, scope: Option<Record>,
                    yielded: Option<Text>, depth: nat)
    returns (step: Outcome, rest: Outcome)
    requires index < end <= |p| && depth <= MAX_NESTING
    ensures step == RunOne(data, views, p, index, end, scope, yielded, depth)
    ensures step.error.None? ==>
              NextIndex(p, index) <= end
              && rest == RunFrom(data, views, p, NextIndex(p, index), end, scope, yielded, depth)
    ensures RunFrom(data, views, p, index, end, scope, yielded, depth) == Then(step, rest)
  {
    step := RunOne(data, views, p, index, end, scope, yielded, depth);
    rest := if index < NextIndex(p, index) <= end
      then RunFrom(data, views, p, NextIndex(p, index), end, scope, yielded, depth) else DONE;
  }

  predicate IsSection(ins: Instruction) {
    ins.kind.SectionKind? || ins.kind.InverseSectionKind?
  }

  function NextIndex(p: Program, index: nat): nat
    requires index < |p|
  {
    if IsSection(p[index]) then p[index].jump else index + 1
  }

  /** The outcome of the instruction at `index` alone. */
  ghost function RunOne(data: Data, views: Library<Program>, p: Program, index: nat, end: nat, scope: Option<Record>,
                        yielded: Option<Text>, depth: nat): Outcome
    requires index < end <= |p| && depth <= MAX_NESTING
  {
    var ins := p[index];
    if ins.kind.TextKind? then Outcome(ins.value, None)
    else if ins.kind.VariableKind? then ShowVariable(data, ins.value, scope)
    else if ins.kind.PartialKind? then RunPartial(data, views, ins.value, scope, depth)
    else if ins.kind.YieldKind? then ShowYield(yielded)
    else
      var inverse := ins.kind.InverseSectionKind?;
      var value := Resolve(data, ins.value, scope);
      if value.None? then Fail(UnknownValue(ins.value))
      else if ins.jump < index + 1 || ins.jump > end then Fail(InvalidJump)
      else if Truthy(value.value) == inverse then DONE
      else if value.value.CollectionValue? && !inverse then
        if !value.value.usable then Fail(InvalidCollection)
        else RunItems(data, views, p, index + 1, ins.jump, value.value.items, yielded, depth)
      else Run(data, views, p, index + 1, ins.jump, scope, yielded, depth)
  }

  /** One turn of the loop in view_render_program. */
  method RenderInstruction(data: Data, views: Library<Program>, p: Program, index: nat, end: nat, scope: Option<Record>,
                           output: Output, yielded: Option<Text>, depth: nat)
    returns (error: Option<RenderError>, next: nat)
    requires index < end <= |p| && depth <= MAX_NESTING
    requires !output.exhausted
    modifies output
    ensures Renders(old(output.text), output, error,
                    RunOne(data, views, p, index, end, scope, yielded, depth))
    ensures error.None? ==> next == NextIndex(p, index) && index < next <= end
    decreases Budget(depth), end - index, 1
  {
    var ins := p[index];
    next := index + 1;
    assert output.text + "" == output.text;
    if ins.kind.TextKind? {
      var ok := output.Append(ins.value);
      error := if ok then None else Some(NoMemory);
    } else if ins.kind.VariableKind? {
      error := RenderVariable(data, ins.value, scope, output);
    } else if ins.kind.PartialKind? {
      error := RenderPartial(data, views, ins.value, scope, output, depth);
    } else if ins.kind.YieldKind? {
      if yielded.None? {
        return Some(YieldUnavailable), next;
      }
      var ok := output.Append(yielded.value);
      error := if ok then None else Some(NoMemory);
    } else {
      var inverse := ins.kind.InverseSectionKind?;
      var value := Resolve(data, ins.value, scope);
      if value.None? {
        return Some(UnknownValue(ins.value)), next;
      }
      if ins.jump < index + 1 || ins.jump > end {
        return Some(InvalidJump), next;
      }
      next := ins.jump;
      var taken := Truthy(value.value) != inverse;
      error := None;
      if taken && value.value.CollectionValue? && !inverse {
        if !value.value.usable {
          return Some(InvalidCollection), next;
        }
        error := RenderItems(data, views, p, index + 1, ins.jump, value.value.items, output, yielded, depth);
      } else if taken {
        error := RenderProgram(data, views, p, index + 1, ins.jump, scope, output, yielded, depth);
      }
    }
  }

  /** The item loop of a collection section. */
  method RenderItems(data: Data, views: Library<Program>, p: Program, start: nat, end: nat, items: seq<Record>,
                     output: Output, yielded: Option<Text>, depth: nat)
    returns (error: Option<RenderError>)
    requires !output.exhausted
    modifies output
    ensures Renders(old(output.text), output, error,
                    RunItems(data, views, p, start, end, items, yielded, depth))
    decreases Budget(depth), if start <= end then end - start else 0, 3
  {
    hide Run, Then;
    ghost var emitted := "";
    ghost var whole := RunItems(data, views, p, start, end, items, yielded, depth);
    ThenAssociative(whole, DONE, DONE);
    assert items[0..] == items && output.text + "" == output.text;
    for i := 0 to |items|
      invariant !output.exhausted && output.text == old(output.text) + emitted
      invariant whole == Then(Outcome(emitted, None), RunItems(data, views, p, start, end, items[i..], yielded, depth))
    {
      error := RenderProgram(data, views, p, start, end, Some(items[i]), output, yielded, depth);
      ghost var step := Run(data, views, p, start, end, Some(items[i]), yielded, depth);
      ghost var rest := RunItems(data, views, p, start, end, items[i + 1..], yielded, depth);
      assert items[i..][1..] == items[i + 1..];
      if !output.exhausted {
        Accumulate(old(output.text), emitted, output.text, step, rest, whole);
        emitted := emitted + step.text;
      }
      if error.Some? {
        return;
      }
    }
    ThenAssociative(Outcome(emitted, None), DONE, DONE);
    return None;
  }

  /** view_render_partial. */
  method RenderPartial(data: Data, views: Library<Program>, path: Text, scope: Option<Record>, output: Output,
                       depth: nat)
    returns (error: Option<RenderError>)
    requires !output.exhausted
    modifies output
    ensures Renders(old(output.text), output, error, RunPartial(data, views, path, scope, depth))
    decreases Budget(depth), 0, 0
  {
    assert output.text + "" == output.text;
    if depth >= MAX_NESTING {
      return Some(NestingExceeded);
    }
    match Load(views, path) {
      case Failure(e) => return Some(e);
      case Success(p) => error := RenderProgram(data, views, p, 0, |p|, scope, output, None, depth + 1);
    }
  }

  /** view_render_to_string. */
  method RenderView(data: Data, views: Library<Program>, path: Text, output: Output)
    returns (error: Option<RenderError>)
    requires !output.exhausted
    modifies output
    ensures Renders(old(output.text), output, error, RenderToString(data, views, path))
  {
    assert output.text + "" == output.text;
    match Load(views, path) {
      case Failure(e) => return Some(e);
      case Success(p) => error := RenderProgram(data, views, p, 0, |p|, None, output, None, 0);
    }
  }

  /** view_render_with_layout: the page goes to a buffer of its own, then to the layout. */
  method RenderPage(data: Data, views: Library<Program>, path: Text, output: Output)
    returns (error: Option<RenderError>, bodyExhausted: bool)
    requires !output.exhausted
    modifies output
    ensures if bodyExhausted then output.mayRefuse && error.Some?
            else Renders(old(output.text), output, error, RenderWithLayout(data, views, path))
  {
    hide IsViewPath, Load, RenderToString, Run;
    assert output.text + "" == output.text;
    var body := new Output(output.mayRefuse);
    error := RenderView(data, views, path, body);
    assert "" + RenderToString(data, views, path).text == RenderToString(data, views, path).text;
    bodyExhausted := body.exhausted;
    if error.Some? {
      return;
    }
    match Load(views, LAYOUT) {
      case Failure(ViewNotFound) =>
        var ok := output.Append(body.text);
        error := if ok then None else Some(NoMemory);
      case Failure(e) =>
        error := Some(e);
      case Success(p) =>
        var yielded := if body.text == "" then None else Some(body.text);
        error := RenderProgram(data, views, p, 0, |p|, None, output, yielded, 0);
    }
  }
}
