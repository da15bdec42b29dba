/** The view compiler of tools/ceasy_cli/src/view_compiler.c: name lookup, the partial check and
    the three-colour search for partial cycles. */
module ViewCompiler {
  import opened Texts
  import opened Templates

  datatype ViewSource = ViewSource(logical: Text, program: Program)

  type Bundle = seq<ViewSource>

  // ---------- the graph of partial references ----------

  /** The first view with this logical name. */
  function FindView(views: Bundle, name: Text): (r: Option<nat>)
    ensures r.Some? ==> r.value < |views| && views[r.value].logical == name
    ensures r.Some? ==> forall i :: 0 <= i < r.value ==> views[i].logical != name
    ensures r.None? ==> forall i :: 0 <= i < |views| ==> views[i].logical != name
  {
    if views == [] then None
    else if views[0].logical == name then Some(0)
    else
      var r := FindView(views[1..], name);
      if r.None? then None else Some(r.value + 1)
  }

  /** The view that instruction `k` of view `a` includes, if it is a partial that exists. */
  function Target(views: Bundle, a: nat, k: nat): (r: Option<nat>)
    requires a < |views| && k < |views[a].program|
    ensures r.Some? ==> r.value < |views|
  {
    var ins := views[a].program[k];
    if ins.kind.PartialKind? then FindView(views, ins.value) else None
  }

  ghost predicate Edge(views: Bundle, a: nat, b: nat) {
    a < |views| && exists k :: 0 <= k < |views[a].program| && Target(views, a, k) == Some(b)
  }

  ghost predicate IsChain(views: Bundle, p: seq<nat>) {
    && p != []
    && (forall i :: 0 <= i < |p| ==> p[i] < |views|)
    && (forall i {:trigger p[i]} :: 0 < i < |p| ==> Edge(views, p[i - 1], p[i]))
  }

  ghost predicate IsCycle(views: Bundle, p: seq<nat>) {
    IsChain(views, p) && |p| > 1 && p[0] == p[|p| - 1]
  }

  ghost predicate Acyclic(views: Bundle) {
    forall p :: !IsCycle(views, p)
  }

  // ---------- finishing orders ----------

  /** Every view in `order` only includes views that finished before it. */
  ghost predicate Ranked(views: Bundle, order: seq<nat>) {
    forall i, b: nat :: 0 <= i < |order| && Edge(views, order[i], b) ==> b in order[..i]
  }

  lemma {:induction false} RankedSnoc(views: Bundle, order: seq<nat>, a: nat)
    requires Ranked(views, order)
    requires forall b: nat :: Edge(views, a, b) ==> b in order
    ensures Ranked(views, order + [a])
  {
    var longer := order + [a];
    forall i, b: nat | 0 <= i < |longer| && Edge(views, longer[i], b)
      ensures b in longer[..i]
    {
      assert longer[..i] == order[..i];
      assert order[..|order|] == order;
    }
  }

  /** A chain that starts at the `i`-th finished view goes on among those finished earlier. */
  lemma {:induction false} ChainDescends(views: Bundle, order: seq<nat>, p: seq<nat>, i: nat, k: nat)
    requires Ranked(views, order) && IsChain(views, p)
    requires i < |order| && order[i] == p[0] && 0 < k < |p|
    ensures p[k] in order[..i]
    decreases k
  {
    assert Edge(views, p[k - 1], p[k]);
    if k > 1 {
      ChainDescends(views, order, p, i, k - 1);
      var j :| 0 <= j < |order[..i]| && order[..i][j] == p[k - 1];
      assert order[..j] == order[..i][..j];
      assert p[k] in order[..j];
    }
  }

  /** No cycle passes through views whose partials were all finished before them. */
  lemma {:induction false} RankedHasNoCycle(views: Bundle, order: seq<nat>, p: seq<nat>, i: nat)
    requires Ranked(views, order) && i < |order| && IsChain(views, p) && order[i] == p[0]
    ensures !IsCycle(views, p)
    decreases i
  {
    if IsCycle(views, p) {
      ChainDescends(views, order, p, i, |p| - 1);
      var j :| 0 <= j < |order[..i]| && order[..i][j] == p[0];
      RankedHasNoCycle(views, order, p, j);
    }
  }

  // ---------- the search ----------

  const WHITE := 0
  const GREY := 1
  const BLACK := 2

  /** The grey views are the chain being followed; the black ones finished in `order`. */
  ghost predicate Colours(views: Bundle, state: seq<int>, grey: seq<nat>, order: seq<nat>) {
    && |state| == |views|
    && (forall v :: 0 <= v < |state| ==> state[v] in {WHITE, GREY, BLACK})
    && (forall v :: 0 <= v < |state| ==> (state[v] == GREY <==> v in grey))
    && (forall v :: 0 <= v < |state| ==> (state[v] == BLACK <==> v in order))
    && (forall i :: 0 <= i < |order| ==> order[i] < |views|)
    && (grey != [] ==> IsChain(views, grey))
    && Ranked(views, order)
  }

  function Unvisited(state: seq<int>): set<nat> {
    set v | 0 <= v < |state| && state[v] == WHITE
  }

  /** compiler_find. */
  method Find(views: Bundle, name: Text) returns (r: Option<nat>)
    ensures r == FindView(views, name)
  {
    var position := 0;
    while position < |views|
      invariant position <= |views|
      invariant forall i :: 0 <= i < position ==> views[i].logical != name
    {
      if views[position].logical == name {
        return Some(position);
      }
      position := position + 1;
    }
    return None;
  }

  /** The cycle that an edge back into the grey chain closes. */
  lemma {:induction false} BackEdge(views: Bundle, grey: seq<nat>, target: nat) returns (cycle: seq<nat>)
    requires IsChain(views, grey) && target in grey && Edge(views, grey[|grey| - 1], target)
    ensures IsCycle(views, cycle)
  {
    hide Edge;
    var i :| 0 <= i < |grey| && grey[i] == target;
    cycle := grey[i..] + [target];
    assert forall j :: 0 <= j < |cycle| - 1 ==> cycle[j] == grey[i + j];
    forall j | 0 < j < |cycle|
      ensures Edge(views, cycle[j - 1], cycle[j])
    {
      assert j < |cycle| - 1 ==> Edge(views, grey[i + j - 1], grey[i + j]);
    }
  }

  lemma {:induction false} ChainSnoc(views: Bundle, grey: seq<nat>, b: nat)
    requires grey != [] ==> IsChain(views, grey) && Edge(views, grey[|grey| - 1], b)
    requires b < |views|
    ensures IsChain(views, grey + [b])
  {
    var longer := grey + [b];
    forall i | 0 < i < |longer|
      ensures Edge(views, longer[i - 1], longer[i])
    {
      if i < |grey| {
        assert longer[i] == grey[i];
      }
    }
  }

  lemma {:induction false} EdgesAreTargets(views: Bundle, a: nat, order: seq<nat>)
    requires a < |views|
    requires forall j :: 0 <= j < |views[a].program| && Target(views, a, j).Some? ==> Target(views, a, j).value in order
    ensures forall b: nat :: Edge(views, a, b) ==> b in order
  {
  }

  lemma {:induction false} TargetIsEdge(views: Bundle, a: nat, k: nat)
    requires a < |views| && k < |views[a].program| && Target(views, a, k).Some?
    ensures Edge(views, a, Target(views, a, k).value)
  {
  }

  /** compiler_visit: follows the partials of `index`, whose includers are `grey`. It terminates
      because the set of unvisited views shrinks. */
  method Visit(views: Bundle, index: nat, state: array<int>, ghost grey: seq<nat>, ghost order: seq<nat>)
    returns (ok: bool, ghost order': seq<nat>, ghost cycle: seq<nat>)
    requires index < |views| && Colours(views, state[..], grey, order) && state[index] == WHITE
    requires grey != [] ==> Edge(views, grey[|grey| - 1], index)
    modifies state
    ensures Unvisited(state[..]) <= old(Unvisited(state[..]))
    ensures ok ==> Colours(views, state[..], grey, order') && order <= order' && index in order'
    ensures !ok ==> IsCycle(views, cycle)
    decreases Unvisited(state[..])
  {
    hide Ranked, IsChain, Edge;
    var program := views[index].program;
    ghost var before, whiteState := Unvisited(state[..]), state[..];
    assert index in before;
    state[index] := GREY;
    ghost var chain := grey + [index];
    ChainSnoc(views, grey, index);
    GreyColours(views, whiteState, grey, order, index);
    assert state[..] == whiteState[index := GREY];
    order', cycle := order, [];
    var k := 0;
    while k < |program|
      invariant k <= |program|
      invariant Colours(views, state[..], chain, order') && order <= order'
      invariant Unvisited(state[..]) <= before - {index}
      invariant forall j :: 0 <= j < k && Target(views, index, j).Some? ==> Target(views, index, j).value in order'
    {
      var found := None;
      if program[k].kind.PartialKind? {
        found := Find(views, program[k].value);
      }
      if found.Some? {
        var target := found.value;
        assert Target(views, index, k) == Some(target);
        TargetIsEdge(views, index, k);
        if state[target] == GREY {
          cycle := BackEdge(views, chain, target);
          return false, order', cycle;
        }
        if state[target] == WHITE {
          ghost var finished := order';
          ok, order', cycle := Visit(views, target, state, chain, finished);
          if !ok {
            return;
          }
        }
      }
      k := k + 1;
    }
    ghost var greyState := state[..];
    state[index] := BLACK;
    EdgesAreTargets(views, index, order');
    FinishColours(views, greyState, grey, order', index);
    order' := order' + [index];
    ok := true;
    assert state[..] == greyState[index := BLACK];
  }

  lemma {:induction false} GreyColours(views: Bundle, state: seq<int>, grey: seq<nat>, order: seq<nat>, index: nat)
    requires index < |views| && Colours(views, state, grey, order) && state[index] == WHITE
    requires IsChain(views, grey + [index])
    ensures Colours(views, state[index := GREY], grey + [index], order) && index !in grey
    ensures Unvisited(state[index := GREY]) == Unvisited(state) - {index}
  {
  }

  lemma {:induction false} FinishColours(views: Bundle, state: seq<int>, grey: seq<nat>, order: seq<nat>, index: nat)
    requires index < |views| && Colours(views, state, grey + [index], order) && index !in grey
    requires grey != [] ==> IsChain(views, grey)
    requires forall b: nat :: Edge(views, index, b) ==> b in order
    ensures Colours(views, state[index := BLACK], grey, order + [index])
    ensures Unvisited(state[index := BLACK]) == Unvisited(state)
  {
    RankedSnoc(views, order, index);
    assert state[index] == GREY by {
      assert index in grey + [index];
    }
  }

  /** compiler_validate_cycles accepts exactly the bundles without a partial cycle, unless it is
      refused the memory for the colours. */
  method ValidateCycles(views: Bundle, mayRefuse: bool) returns (ok: bool)
    ensures ok ==> Acyclic(views)
    ensures !ok ==> !Acyclic(views) || (mayRefuse && views != [])
  {
    var granted: bool := *;
    if mayRefuse && !granted && |views| != 0 {
      return false;
    }
    var state := new int[|views|](_ => WHITE);
    ghost var order: seq<nat> := [];
    var index := 0;
    while index < |views|
      invariant index <= |views| && fresh(state)
      invariant Colours(views, state[..], [], order)
      invariant forall v :: 0 <= v < index ==> v in order
    {
      if state[index] == WHITE {
        ghost var finished := order;
        ghost var cycle;
        ok, order, cycle := Visit(views, index, state, [], finished);
        if !ok {
          return;
        }
      }
      index := index + 1;
    }
    forall p
      ensures !IsCycle(views, p)
    {
      if IsCycle(views, p) {
        assert p[0] in order;
        var i :| 0 <= i < |order| && order[i] == p[0];
        RankedHasNoCycle(views, order, p, i);
      }
    }
    return true;
  }

  // ---------- the other checks ----------

  ghost predicate ViewPartialsExist(views: Bundle, a: nat)
    requires a < |views|
  {
    forall k :: 0 <= k < |views[a].program| && views[a].program[k].kind.PartialKind? ==> Target(views, a, k).Some?
  }

  ghost predicate PartialsExist(views: Bundle) {
    forall a :: 0 <= a < |views| ==> ViewPartialsExist(views, a)
  }

  /** What the two checks are about: a partial must name a view, and a view leads to another when
      one of its partials has that name. */
  lemma {:induction false} PartialsAre(views: Bundle)
    ensures PartialsExist(views)
       <==> forall a, k ::
              0 <= a < |views| && 0 <= k < |views[a].program| && views[a].program[k].kind == PartialKind ==>
                exists b :: 0 <= b < |views| && views[b].logical == views[a].program[k].value
  {
    if PartialsExist(views) {
      forall a, k | 0 <= a < |views| && 0 <= k < |views[a].program| && views[a].program[k].kind == PartialKind
        ensures exists b :: 0 <= b < |views| && views[b].logical == views[a].program[k].value
      {
        assert ViewPartialsExist(views, a);
        assert views[Target(views, a, k).value].logical == views[a].program[k].value;
      }
    }
  }

  lemma {:induction false} EdgesAre(views: Bundle, a: nat, b: nat)
    requires a < |views| && b < |views| && forall i :: 0 <= i < b ==> views[i].logical != views[b].logical
    ensures Edge(views, a, b)
       <==> exists k :: 0 <= k < |views[a].program| && views[a].program[k].kind == PartialKind
                        && views[a].program[k].value == views[b].logical
  {
    var p := views[a].program;
    forall k | 0 <= k < |p| && p[k].kind == PartialKind && p[k].value == views[b].logical
      ensures Target(views, a, k) == Some(b)
    {
      assert FindView(views, p[k].value).Some?;
    }
  }

  /** compiler_validate_partials. */
  method ValidatePartials(views: Bundle) returns (ok: bool)
    ensures ok <==> PartialsExist(views)
  {
    var index := 0;
    while index < |views|
      invariant index <= |views|
      invariant forall a :: 0 <= a < index ==> ViewPartialsExist(views, a)
    {
      var k := 0;
      while k < |views[index].program|
        invariant k <= |views[index].program|
        invariant forall j :: 0 <= j < k && views[index].program[j].kind.PartialKind? ==> Target(views, index, j).Some?
      {
        if views[index].program[k].kind.PartialKind? {
          var found := Find(views, views[index].program[k].value);
          if found.None? {
            assert Target(views, index, k).None? && !ViewPartialsExist(views, index);
            return false;
          }
        }
        k := k + 1;
      }
      index := index + 1;
    }
    return true;
  }
}
