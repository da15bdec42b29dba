/** What the checks of the view compiler buy at run time: rendering from an accepted bundle
    finds every partial and stays within the nesting limit of the renderer. */
module BundleRendering {
  import opened Texts
  import opened Numbers
  import opened Templates
  import opened Views
  import opened Renderer
  import opened ViewCompiler
  import opened Layouts

  /** view_bundle_find answers with the first view of that path. */
  function Embedded(views: Bundle): Library<Program> {
    map name | name in set v | v in views :: v.logical :: Good(views[FindExisting(views, name)].program)
  }

  function FindExisting(views: Bundle, name: Text): (i: nat)
    requires exists v :: v in views && v.logical == name
    ensures i < |views| && FindView(views, name) == Some(i)
  {
    FindView(views, name).value
  }

  /** The compiler keeps only views whose logical names are view paths, and the parser only
      emits partials whose names are. */
  ghost predicate NamesValid(views: Bundle) {
    forall a :: 0 <= a < |views| ==> IsViewPath(views[a].logical)
  }

  ghost predicate Accepted(views: Bundle) {
    NamesValid(views) && PartialsExist(views) && Acyclic(views)
  }

  // ---------- chains of partials are short ----------

  lemma {:induction false} SubChain(views: Bundle, p: seq<nat>, i: nat, j: nat)
    requires IsChain(views, p) && i < j < |p|
    ensures IsChain(views, p[i..j + 1])
  {
    hide Edge;
    var part := p[i..j + 1];
    assert forall k :: 0 <= k < |part| ==> part[k] == p[i + k];
    forall k | 0 < k < |part|
      ensures Edge(views, part[k - 1], part[k])
    {
      assert Edge(views, p[i + k - 1], p[i + k]);
    }
  }

  lemma {:induction false} ChainIsInjective(views: Bundle, p: seq<nat>)
    requires Acyclic(views) && IsChain(views, p)
    ensures forall i, j :: 0 <= i < j < |p| ==> p[i] != p[j]
  {
    hide IsChain;
    forall i, j | 0 <= i < j < |p|
      ensures p[i] != p[j]
    {
      SubChain(views, p, i, j);
      assert !IsCycle(views, p[i..j + 1]);
    }
  }

  lemma {:induction false} DistinctBelow(p: seq<nat>, n: nat)
    requires forall i :: 0 <= i < |p| ==> p[i] < n
    requires forall i, j :: 0 <= i < j < |p| ==> p[i] != p[j]
    ensures |p| <= n
  {
    if p == [] {
      return;
    }
    assert p[0] < n;
    if exists k :: 0 <= k < |p| && p[k] == n - 1 {
      var k :| 0 <= k < |p| && p[k] == n - 1;
      var rest := p[..k] + p[k + 1..];
      assert forall i :: 0 <= i < |rest| ==> rest[i] == if i < k then p[i] else p[i + 1];
      DistinctBelow(rest, n - 1);
    } else {
      DistinctBelow(p, n - 1);
    }
  }

  /** Without cycles, a chain of nested partials holds every view at most once. */
  lemma {:induction false} ChainLength(views: Bundle, p: seq<nat>)
    requires Acyclic(views) && IsChain(views, p)
    ensures |p| <= |views|
  {
    ChainIsInjective(views, p);
    DistinctBelow(p, |views|);
  }

  // ---------- rendering along a chain ----------

  /** The errors an accepted bundle rules out. */
  predicate PartialFault(o: Outcome) {
    o.error in {Some(NestingExceeded), Some(ViewNotFound), Some(ViewBroken), Some(InvalidViewPath)}
  }

  /** No chain of partials that starts at view `a` is longer than the nesting limit allows. */
  ghost predicate Shallow(views: Bundle, a: nat) {
    forall p :: IsChain(views, p) && p[0] == a ==> |p| <= 65
  }

  lemma {:induction false} SmallIsShallow(views: Bundle, a: nat)
    requires Acyclic(views) && |views| <= 65
    ensures Shallow(views, a)
  {
    hide IsChain, Acyclic;
    forall p | IsChain(views, p)
      ensures |p| <= 65
    {
      ChainLength(views, p);
    }
  }

  /** The views being rendered, outermost first: a chain that is one longer than the depth. */
  ghost predicate Rendering(views: Bundle, chain: seq<nat>, depth: nat) {
    Accepted(views) && IsChain(views, chain) && |chain| == depth + 1 && Shallow(views, chain[0])
  }

  function Innermost(views: Bundle, chain: seq<nat>): Program
    requires chain != [] && chain[|chain| - 1] < |views|
  {
    views[chain[|chain| - 1]].program
  }

  lemma {:induction false} RunStaysShallow(data: Data, views: Bundle, chain: seq<nat>, start: nat, end: nat,
                                           scope: Option<Record>, yielded: Option<Text>, depth: nat)
    requires Rendering(views, chain, depth)
    ensures !PartialFault(Run(data, Embedded(views), Innermost(views, chain), start, end, scope, yielded, depth))
    decreases Budget(depth), if start <= end then end - start else 0, 2, 0
  {
    hide RunFrom;
    if depth <= MAX_NESTING && end <= |Innermost(views, chain)| && start <= end {
      RunFromStaysShallow(data, views, chain, start, end, scope, yielded, depth);
    }
  }

  lemma {:induction false} RunFromStaysShallow(data: Data, views: Bundle, chain: seq<nat>, index: nat, end: nat,
                                               scope: Option<Record>, yielded: Option<Text>, depth: nat)
    requires Rendering(views, chain, depth) && index <= end <= |Innermost(views, chain)| && depth <= MAX_NESTING
    ensures !PartialFault(RunFrom(data, Embedded(views), Innermost(views, chain), index, end, scope, yielded, depth))
    decreases Budget(depth), end - index, 1, 0
  {
    var program := Innermost(views, chain);
    if index < end {
      StepStaysShallow(data, views, chain, index, end, scope, yielded, depth);
      hide RunOne, RunFrom, Rendering, Innermost, Embedded, NextIndex;
      var step, rest := StepOutcome(data, Embedded(views), program, index, end, scope, yielded, depth);
      if step.error.None? {
        StepMovesOn(data, Embedded(views), program, index, end, scope, yielded, depth);
        RunFromStaysShallow(data, views, chain, NextIndex(program, index), end, scope, yielded, depth);
      }
    }
  }

  lemma {:induction false} StepMovesOn(data: Data, views: Library<Program>, p: Program, index: nat, end: nat,
                                       scope: Option<Record>, yielded: Option<Text>, depth: nat)
    requires index < end <= |p| && depth <= MAX_NESTING
    requires RunOne(data, views, p, index, end, scope, yielded, depth).error.None?
    ensures index < NextIndex(p, index) <= end
  {
    hide Run, RunItems, RunPartial, ShowVariable, Resolve, Truthy;
  }

  /** One step brings in no such error that its parts do not. */
  lemma {:induction false} StepFault(data: Data, lib: Library<Program>, p: Program, index: nat, end: nat,
                                     scope: Option<Record>, yielded: Option<Text>, depth: nat)
    requires index < end <= |p| && depth <= MAX_NESTING
    requires p[index].kind.PartialKind? ==> !PartialFault(RunPartial(data, lib, p[index].value, scope, depth))
    requires IsSection(p[index]) && index + 1 <= p[index].jump <= end ==>
               && !PartialFault(Run(data, lib, p, index + 1, p[index].jump, scope, yielded, depth))
               && (var value := Resolve(data, p[index].value, scope);
                   value.Some? && value.value.CollectionValue? ==>
                     !PartialFault(RunItems(data, lib, p, index + 1, p[index].jump, value.value.items, yielded, depth)))
    ensures !PartialFault(RunOne(data, lib, p, index, end, scope, yielded, depth))
  {
    hide Run, RunItems, RunPartial, Resolve, Show, Truthy;
  }

  lemma {:induction false} StepStaysShallow(data: Data, views: Bundle, chain: seq<nat>, index: nat, end: nat,
                                            scope: Option<Record>, yielded: Option<Text>, depth: nat)
    requires Rendering(views, chain, depth) && index < end <= |Innermost(views, chain)| && depth <= MAX_NESTING
    ensures !PartialFault(RunOne(data, Embedded(views), Innermost(views, chain), index, end, scope, yielded, depth))
    decreases Budget(depth), end - index, 0, 0
  {
    hide Run, RunOne, RunItems, RunPartial, Accepted, Embedded, Resolve, PartialFault;
    var ins := Innermost(views, chain)[index];
    hide Rendering, Innermost;
    if ins.kind.PartialKind? {
      PartialStaysShallow(data, views, chain, index, scope, depth);
    }
    if IsSection(ins) && index + 1 <= ins.jump <= end {
      RunStaysShallow(data, views, chain, index + 1, ins.jump, scope, yielded, depth);
      var value := Resolve(data, ins.value, scope);
      if value.Some? && value.value.CollectionValue? {
        ItemsStayShallow(data, views, chain, index + 1, ins.jump, value.value.items, yielded, depth);
      }
    }
    StepFault(data, Embedded(views), Innermost(views, chain), index, end, scope, yielded, depth);
  }

  lemma {:induction false} ItemsStayShallow(data: Data, views: Bundle, chain: seq<nat>, start: nat, end: nat,
                                            items: seq<Record>, yielded: Option<Text>, depth: nat)
    requires Rendering(views, chain, depth)
    ensures !PartialFault(RunItems(data, Embedded(views), Innermost(views, chain), start, end, items, yielded, depth))
    decreases Budget(depth), if start <= end then end - start else 0, 3, |items|
  {
    hide Run, Rendering, Embedded;
    if items != [] {
      RunStaysShallow(data, views, chain, start, end, Some(items[0]), yielded, depth);
      ItemsStayShallow(data, views, chain, start, end, items[1..], yielded, depth);
    }
  }

  lemma {:induction false} PartialStaysShallow(data: Data, views: Bundle, chain: seq<nat>, index: nat,
                                               scope: Option<Record>, depth: nat)
    requires Rendering(views, chain, depth) && depth <= MAX_NESTING
    requires index < |Innermost(views, chain)| && Innermost(views, chain)[index].kind.PartialKind?
    ensures !PartialFault(RunPartial(data, Embedded(views), Innermost(views, chain)[index].value, scope, depth))
    decreases Budget(depth), 0, 0, 0
  {
    hide Run, Embedded, IsViewPath;
    var current := chain[|chain| - 1];
    var name := Innermost(views, chain)[index].value;
    assert ViewPartialsExist(views, current);
    var target := Target(views, current, index).value;
    TargetIsEdge(views, current, index);
    ChainSnoc(views, chain, target);
    assert (chain + [target])[0] == chain[0];
    LoadEmbedded(views, target, name);
    assert (chain + [target])[|chain|] == target;
    RunStaysShallow(data, views, chain + [target], 0, |views[target].program|, scope, None, depth + 1);
  }

  lemma {:induction false} LoadEmbedded(views: Bundle, target: nat, name: Text)
    requires NamesValid(views) && FindView(views, name) == Some(target)
    ensures Load(Embedded(views), name) == Success(views[target].program)
  {
    hide IsViewPath;
    assert views[target] in views && views[target].logical == name;
  }

  /** Main result: in an accepted bundle, a view from which no chain of partials is longer than 65
      renders without ever hitting the nesting limit or missing a partial, whatever the data. */
  lemma {:induction false} AcceptedBundleRenders(data: Data, views: Bundle, name: Text)
    requires Accepted(views) && FindView(views, name).Some? && Shallow(views, FindView(views, name).value)
    ensures !PartialFault(RenderToString(data, Embedded(views), name))
  {
    hide Run, Embedded, Acyclic, Shallow;
    var target := FindView(views, name).value;
    LoadEmbedded(views, target, name);
    RunStaysShallow(data, views, [target], 0, |views[target].program|, None, None, 0);
  }

  /** Main result: the same in the layout, which may be a view of the bundle or missing. */
  lemma {:induction false} AcceptedBundleRendersPages(data: Data, views: Bundle, name: Text)
    requires Accepted(views) && FindView(views, name).Some? && Shallow(views, FindView(views, name).value)
    requires FindView(views, LAYOUT).Some? ==> Shallow(views, FindView(views, LAYOUT).value)
    ensures !PartialFault(RenderWithLayout(data, Embedded(views), name))
  {
    hide RenderToString, Run, Acyclic, PartialsExist, IsViewPath, Shallow;
    AcceptedBundleRenders(data, views, name);
    var page := RenderToString(data, Embedded(views), name);
    LayoutPaths();
    var target := FindView(views, LAYOUT);
    if target.Some? {
      LoadEmbedded(views, target.value, LAYOUT);
      var program := views[target.value].program;
      hide Embedded, Load, PartialFault;
      RunStaysShallow(data, views, [target.value], 0, |program|, None,
                      if page.text == "" then None else Some(page.text), 0);
    } else {
      assert LAYOUT !in Embedded(views);
    }
  }

  /** So it is for every view of an accepted bundle of at most 65 views, alone and in the layout. */
  lemma {:induction false} SmallBundleRenders(data: Data, views: Bundle, a: nat)
    requires Accepted(views) && |views| <= 65 && a < |views|
    ensures !PartialFault(RenderToString(data, Embedded(views), views[a].logical))
    ensures !PartialFault(RenderWithLayout(data, Embedded(views), views[a].logical))
  {
    hide RenderToString, RenderWithLayout, Embedded, Acyclic, Shallow, PartialFault;
    SmallIsShallow(views, FindView(views, views[a].logical).value);
    if FindView(views, LAYOUT).Some? {
      SmallIsShallow(views, FindView(views, LAYOUT).value);
    }
    AcceptedBundleRenders(data, views, views[a].logical);
    AcceptedBundleRendersPages(data, views, views[a].logical);
  }

  // ---------- the bound is exact ----------

  /** `names` is a chain of views, each of which consists of the partial of the next one. */
  ghost predicate PartialTower(views: Library<Program>, names: seq<Text>) {
    && (forall i :: 0 <= i < |names| ==> IsViewPath(names[i]))
    && (forall i :: 0 <= i < |names| - 1 ==>
          names[i] in views && views[names[i]] == Good([Instruction(PartialKind, names[i + 1], 0)]))
  }

  lemma {:induction false} TowerPartialExceeds(data: Data, views: Library<Program>, names: seq<Text>, depth: nat,
                                               scope: Option<Record>)
    requires PartialTower(views, names) && |names| == MAX_NESTING + 2 && depth <= MAX_NESTING
    ensures RunPartial(data, views, names[depth + 1], scope, depth) == Fail(NestingExceeded)
    decreases MAX_NESTING - depth
  {
    if depth < MAX_NESTING {
      hide RunPartial, IsViewPath;
      TowerPartialExceeds(data, views, names, depth + 1, scope);
      RunSinglePartial(data, views, names[depth + 2], scope, depth + 1);
      PartialLoads(data, views, names[depth + 1], names[depth + 2], scope, depth);
    }
  }

  lemma {:induction false} PartialLoads(data: Data, views: Library<Program>, name: Text, next: Text,
                                        scope: Option<Record>, depth: nat)
    requires depth < MAX_NESTING && IsViewPath(name)
    requires name in views && views[name] == Good([Instruction(PartialKind, next, 0)])
    ensures RunPartial(data, views, name, scope, depth)
         == Run(data, views, [Instruction(PartialKind, next, 0)], 0, 1, scope, None, depth + 1)
  {
    hide Run, IsViewPath;
  }

  lemma {:induction false} RunSinglePartial(data: Data, views: Library<Program>, name: Text, scope: Option<Record>,
                                            depth: nat)
    requires depth <= MAX_NESTING
    ensures Run(data, views, [Instruction(PartialKind, name, 0)], 0, 1, scope, None, depth)
         == RunPartial(data, views, name, scope, depth)
  {
    hide RunPartial;
    assert RunFrom(data, views, [Instruction(PartialKind, name, 0)], 1, 1, scope, None, depth) == DONE;
    ThenAssociative(RunPartial(data, views, name, scope, depth), DONE, DONE);
  }

  /** Where 65 views each include the next, rendering the first nests once too often. */
  lemma {:induction false} TowerExceeds(data: Data, views: Library<Program>, names: seq<Text>)
    requires PartialTower(views, names) && |names| == MAX_NESTING + 2
    ensures RenderToString(data, views, names[0]) == Fail(NestingExceeded)
  {
    hide Run, RunPartial, IsViewPath;
    TowerPartialExceeds(data, views, names, 0, None);
    RunSinglePartial(data, views, names[1], None, 0);
  }

  /** Views named by numerals, which stay far below the compiler's name buffer. */
  function TowerName(k: nat): (name: Text)
    ensures IsPathSegment(name)
  {
    DecimalNat(k)
  }

  lemma {:induction false} TowerNamesDiffer(j: nat, k: nat)
    ensures TowerName(j) == TowerName(k) ==> j == k
  {
    ValueOfDecimalNat(j);
    ValueOfDecimalNat(k);
    hide DecimalNat, ValueOf;
  }

  /** The largest number of `d` digits. */
  function Nines(d: nat): nat {
    if d == 0 then 0 else Nines(d - 1) * 10 + 9
  }

  lemma {:induction false} DecimalLength(n: nat, d: nat)
    requires n <= Nines(d) && d > 0
    ensures |DecimalNat(n)| <= d
    decreases d
  {
    if n >= 10 {
      assert d > 1;
      DecimalLength(n / 10, d - 1);
    }
  }

  lemma {:induction false} TowerNameFits(k: nat)
    requires k <= UINT64_MAX
    ensures |TowerName(k)| <= 20
  {
    assert Nines(5) == 99999;
    assert Nines(10) == 9999999999;
    assert Nines(15) == 999999999999999;
    assert Nines(20) == 99999999999999999999;
    DecimalLength(k, 20);
  }

  function TowerProgram(n: nat, k: nat): Program {
    if k + 1 < n then [Instruction(PartialKind, TowerName(k + 1), 0)] else []
  }

  /** `n` views, each of which but the last consists of the partial of the next one. */
  function Tower(n: nat): (views: Bundle)
    ensures |views| == n
    ensures forall k :: 0 <= k < n ==> views[k] == ViewSource(TowerName(k), TowerProgram(n, k))
  {
    seq(n, k requires 0 <= k < n => ViewSource(TowerName(k), TowerProgram(n, k)))
  }

  lemma {:induction false} TowerFinds(n: nat, k: nat)
    requires k < n
    ensures FindView(Tower(n), TowerName(k)) == Some(k)
  {
    hide FindView, TowerName, Tower;
    var r := FindView(Tower(n), TowerName(k));
    assert Tower(n)[k].logical == TowerName(k);
    if r.Some? {
      TowerNamesDiffer(r.value, k);
    }
  }

  lemma {:induction false} TowerEdge(n: nat, a: nat, b: nat)
    requires Edge(Tower(n), a, b)
    ensures b == a + 1
  {
    hide FindView, TowerName, Tower;
    if a + 1 < n {
      TowerFinds(n, a + 1);
    }
  }

  lemma {:induction false} TowerChain(n: nat, p: seq<nat>, i: nat)
    requires IsChain(Tower(n), p) && i < |p|
    ensures p[i] == p[0] + i
  {
    hide Tower, Edge;
    if i > 0 {
      TowerChain(n, p, i - 1);
      TowerEdge(n, p[i - 1], p[i]);
    }
  }

  /** The view compiler accepts a tower of any height. */
  lemma {:induction false} TowerAccepted(n: nat)
    ensures Accepted(Tower(n))
  {
    hide TowerName, Tower, FindView, Edge, IsViewPath;
    var views := Tower(n);
    forall a | 0 <= a < n
      ensures IsViewPath(views[a].logical)
      ensures ViewPartialsExist(views, a)
    {
      SegmentIsPath(TowerName(a));
      if a + 1 < n {
        TowerFinds(n, a + 1);
      }
    }
    forall p
      ensures !IsCycle(views, p)
    {
      if IsCycle(views, p) {
        TowerChain(n, p, |p| - 1);
      }
    }
  }

  lemma {:induction false} TowerEmbedded(n: nat, k: nat)
    requires k < n
    ensures TowerName(k) in Embedded(Tower(n)) && Embedded(Tower(n))[TowerName(k)] == Good(Tower(n)[k].program)
  {
    hide TowerName, Tower, FindView;
    TowerFinds(n, k);
    assert Tower(n)[k] in Tower(n);
  }

  function TowerNames(): (names: seq<Text>)
    ensures |names| == MAX_NESTING + 2
    ensures forall k :: 0 <= k < |names| ==> names[k] == TowerName(k)
  {
    seq(MAX_NESTING + 2, k requires 0 <= k < MAX_NESTING + 2 => TowerName(k))
  }

  lemma {:induction false} TowerStep(n: nat, k: nat)
    requires k + 1 < n
    ensures IsViewPath(TowerName(k)) && TowerName(k) in Embedded(Tower(n))
    ensures Embedded(Tower(n))[TowerName(k)] == Good([Instruction(PartialKind, TowerName(k + 1), 0)])
  {
    hide TowerName, Tower, Embedded, IsViewPath;
    SegmentIsPath(TowerName(k));
    TowerEmbedded(n, k);
    assert Tower(n)[k].program == TowerProgram(n, k);
  }

  lemma {:induction false} TowerIsPartialTower(n: nat)
    requires n >= MAX_NESTING + 2
    ensures PartialTower(Embedded(Tower(n)), TowerNames())
  {
    hide TowerName, TowerProgram, TowerNames, Tower, Embedded, IsViewPath;
    var names, views := TowerNames(), Embedded(Tower(n));
    forall i | 0 <= i < |names|
      ensures IsViewPath(names[i])
    {
      SegmentIsPath(TowerName(i));
    }
    forall i | 0 <= i < |names| - 1
      ensures names[i] in views && views[names[i]] == Good([Instruction(PartialKind, names[i + 1], 0)])
    {
      TowerStep(n, i);
    }
  }

  /** A tower of 66 views or more is accepted and exceeds the nesting limit; no name in a tower of
      a size that can be counted is longer than 20 characters. */
  lemma {:induction false} AcceptedTowerExceeds(data: Data, n: nat)
    requires n >= 66
    ensures Accepted(Tower(n))
    ensures n <= UINT64_MAX ==> forall k :: 0 <= k < n ==> |Tower(n)[k].logical| <= 20
    ensures RenderToString(data, Embedded(Tower(n)), Tower(n)[0].logical) == Fail(NestingExceeded)
  {
    hide Accepted, RenderToString, TowerName, TowerProgram, TowerNames, Tower, Embedded, PartialTower;
    TowerAccepted(n);
    if n <= UINT64_MAX {
      forall k | 0 <= k < n
        ensures |Tower(n)[k].logical| <= 20
      {
        TowerNameFits(k);
      }
    }
    TowerIsPartialTower(n);
    TowerExceeds(data, Embedded(Tower(n)), TowerNames());
  }

  /** Every view of every accepted bundle of this size renders without such an error. */
  ghost predicate SafeSize(n: nat) {
    forall data: Data, views: Bundle, a: nat ::
      Accepted(views) && |views| == n && a < n ==>
        !PartialFault(RenderToString(data, Embedded(views), views[a].logical))
  }

  /** Main result: 65 is the exact bound. */
  lemma {:induction false} SafeSizes(n: nat)
    ensures SafeSize(n) <==> n <= 65
  {
    hide Accepted, RenderToString, Tower, Embedded;
    if n <= 65 {
      forall data: Data, views: Bundle, a: nat | Accepted(views) && |views| == n && a < n
        ensures !PartialFault(RenderToString(data, Embedded(views), views[a].logical))
      {
        SmallBundleRenders(data, views, a);
      }
    } else {
      AcceptedTowerExceeds(map[], n);
    }
  }
}
