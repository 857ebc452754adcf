/**
 Task dependency graphs and the iterative validator that guards every new edge: a reachability
 search cut at depth five and an exhaustive search over (task, depth) pairs.
 */
module DependencyGraph {
  import opened Common

  type TaskId = nat

  /** The stored `blocked_by` list of each task. */
  type Graph = map<TaskId, seq<TaskId>>

  const MAX_DEPENDENCY_DEPTH: nat := 5
  const MAX_PARENTS: nat := 8

  datatype Validation =
    | Accepted
    | SelfDependency
    | DependencyLimitExceeded
    | CircularDependency
    | DependencyDepthExceeded

  function Parents(g: Graph, task: TaskId): seq<TaskId> {
    if task in g then g[task] else []
  }

  predicate Edge(g: Graph, task: TaskId, parent: TaskId) {
    parent in Parents(g, task)
  }

  function AddEdge(g: Graph, task: TaskId, parent: TaskId): Graph {
    if parent in Parents(g, task) then g else g[task := Parents(g, task) + [parent]]
  }

  // ----- walks

  /** A walk along parent links, extended at its end. */
  datatype Walk = Start(task: TaskId) | Then(prefix: Walk, next: TaskId) {
    function First(): TaskId {
      match this case Start(t) => t case Then(w, _) => w.First()
    }

    function Last(): TaskId {
      match this case Start(t) => t case Then(_, t) => t
    }

    function Edges(): nat {
      match this case Start(_) => 0 case Then(w, _) => 1 + w.Edges()
    }

    predicate In(g: Graph) {
      match this case Start(_) => true case Then(w, t) => w.In(g) && Edge(g, w.Last(), t)
    }
  }

  ghost predicate WalkOf(g: Graph, w: Walk, from: TaskId, to: TaskId, n: nat) {
    w.In(g) && w.First() == from && w.Last() == to && w.Edges() == n
  }

  /** There is a walk of exactly n edges. */
  ghost predicate HasWalk(g: Graph, from: TaskId, to: TaskId, n: nat) {
    exists w :: WalkOf(g, w, from, to, n)
  }

  ghost predicate Reaches(g: Graph, from: TaskId, to: TaskId) {
    exists n: nat :: HasWalk(g, from, to, n)
  }

  /** Some walk from `from` to `to` has at least d edges. */
  ghost predicate ReachesDeep(g: Graph, from: TaskId, to: TaskId, d: nat) {
    exists n: nat :: n >= d && HasWalk(g, from, to, n)
  }

  ghost predicate DepthAtMost(g: Graph, from: TaskId, d: nat) {
    forall to, n: nat :: HasWalk(g, from, to, n) ==> n <= d
  }

  ghost predicate Acyclic(g: Graph) {
    forall a, n: nat :: HasWalk(g, a, a, n) ==> n == 0
  }

  ghost predicate Subgraph(h: Graph, g: Graph) {
    forall a, b :: Edge(h, a, b) ==> Edge(g, a, b)
  }

  lemma WalkZero(g: Graph, a: TaskId, b: TaskId)
    ensures HasWalk(g, a, b, 0) <==> a == b
  {
    if a == b { assert WalkOf(g, Start(a), a, b, 0); }
  }

  lemma WalkStep(g: Graph, from: TaskId, mid: TaskId, to: TaskId, n: nat)
    requires HasWalk(g, from, mid, n) && Edge(g, mid, to)
    ensures HasWalk(g, from, to, n + 1)
  {
    var w :| WalkOf(g, w, from, mid, n);
    assert WalkOf(g, Then(w, to), from, to, n + 1);
  }

  lemma WalkLast(g: Graph, a: TaskId, b: TaskId, n: nat) returns (mid: TaskId)
    requires n > 0 && HasWalk(g, a, b, n)
    ensures HasWalk(g, a, mid, n - 1) && Edge(g, mid, b)
  {
    var w :| WalkOf(g, w, a, b, n);
    mid := w.prefix.Last();
    assert WalkOf(g, w.prefix, a, mid, n - 1);
  }

  lemma {:induction false} WalkConcat(g: Graph, a: TaskId, b: TaskId, c: TaskId, m: nat, n: nat)
    requires HasWalk(g, a, b, m) && HasWalk(g, b, c, n)
    ensures HasWalk(g, a, c, m + n)
    decreases n
  {
    if n == 0 {
      WalkZero(g, b, c);
    } else {
      var mid := WalkLast(g, b, c, n);
      WalkConcat(g, a, b, mid, m, n - 1);
      WalkStep(g, a, mid, c, m + n - 1);
    }
  }

  lemma {:induction false} WalkPrefix(g: Graph, a: TaskId, c: TaskId, m: nat, n: nat) returns (b: TaskId)
    requires m <= n && HasWalk(g, a, c, n)
    ensures HasWalk(g, a, b, m)
    decreases n
  {
    if m == n {
      b := c;
    } else {
      var mid := WalkLast(g, a, c, n);
      b := WalkPrefix(g, a, mid, m, n - 1);
    }
  }

  lemma {:induction false} WalkInSupergraph(h: Graph, g: Graph, a: TaskId, b: TaskId, n: nat)
    requires Subgraph(h, g) && HasWalk(h, a, b, n)
    ensures HasWalk(g, a, b, n)
    decreases n
  {
    if n == 0 {
      WalkZero(h, a, b);
      WalkZero(g, a, b);
    } else {
      var mid := WalkLast(h, a, b, n);
      WalkInSupergraph(h, g, a, mid, n - 1);
      WalkStep(g, a, mid, b, n - 1);
    }
  }

  lemma AddEdgeParents(g: Graph, t: TaskId, p: TaskId, a: TaskId, b: TaskId)
    ensures Edge(AddEdge(g, t, p), a, b) <==> Edge(g, a, b) || (a == t && b == p)
  {
  }

  lemma AddEdgeSupergraph(g: Graph, t: TaskId, p: TaskId)
    ensures Subgraph(g, AddEdge(g, t, p))
  {
    forall a, b | Edge(g, a, b) ensures Edge(AddEdge(g, t, p), a, b) {
      AddEdgeParents(g, t, p, a, b);
    }
  }

  /** Going round a closed walk gives walks of every multiple of its length. */
  lemma {:induction false} Pump(g: Graph, t: TaskId, n: nat, times: nat)
    requires HasWalk(g, t, t, n)
    ensures HasWalk(g, t, t, n * times)
  {
    if times == 0 {
      WalkZero(g, t, t);
    } else {
      Pump(g, t, n, times - 1);
      WalkConcat(g, t, t, t, n * (times - 1), n);
      assert n * (times - 1) + n == n * times;
    }
  }

  lemma ClosedWalkUnbounded(g: Graph, t: TaskId, n: nat, d: nat)
    requires n >= 1 && HasWalk(g, t, t, n)
    ensures !DepthAtMost(g, t, d)
  {
    Pump(g, t, n, d + 1);
    assert n * (d + 1) >= d + 1;
  }

  // ----- what the validator accepts

  ghost predicate Acceptable(g: Graph, task: TaskId, parent: TaskId) {
    && task != parent
    && (parent in Parents(g, task) || |Parents(g, task)| < MAX_PARENTS)
    && DepthAtMost(AddEdge(g, task, parent), task, MAX_DEPENDENCY_DEPTH)
  }

  /** A walk of the extended graph either avoids the new edge or passes through the edited task. */
  lemma {:induction false} WalkUsesNewEdge(g: Graph, t: TaskId, p: TaskId, a: TaskId, b: TaskId, n: nat)
    returns (kept: bool, k: nat)
    requires HasWalk(AddEdge(g, t, p), a, b, n)
    ensures kept ==> HasWalk(g, a, b, n)
    ensures !kept ==> k < n && HasWalk(AddEdge(g, t, p), a, t, k) && HasWalk(AddEdge(g, t, p), t, b, n - k)
    decreases n
  {
    var h := AddEdge(g, t, p);
    kept, k := true, 0;
    if n == 0 {
      WalkZero(h, a, b);
      WalkZero(g, a, b);
    } else {
      var mid := WalkLast(h, a, b, n);
      kept, k := WalkUsesNewEdge(g, t, p, a, mid, n - 1);
      if !kept {
        WalkStep(h, t, mid, b, n - 1 - k);
      } else if Edge(g, mid, b) {
        WalkStep(g, a, mid, b, n - 1);
      } else {
        AddEdgeParents(g, t, p, mid, b);
        WalkZero(h, t, t);
        WalkStep(h, t, t, b, 0);
        kept, k := false, n - 1;
      }
    }
  }

  /** The depth bound alone rules out every cycle the new edge could close. */
  lemma AcceptedEdgeKeepsAcyclic(g: Graph, t: TaskId, p: TaskId)
    requires Acyclic(g) && DepthAtMost(AddEdge(g, t, p), t, MAX_DEPENDENCY_DEPTH)
    ensures Acyclic(AddEdge(g, t, p))
  {
    var h := AddEdge(g, t, p);
    forall a, n: nat | HasWalk(h, a, a, n) ensures n == 0 {
      var kept, k := WalkUsesNewEdge(g, t, p, a, a, n);
      if !kept {
        WalkConcat(h, t, a, t, n - k, k);
        ClosedWalkUnbounded(h, t, n, MAX_DEPENDENCY_DEPTH);
      }
    }
  }

  lemma SubgraphAcyclic(h: Graph, g: Graph)
    requires Subgraph(h, g) && Acyclic(g)
    ensures Acyclic(h)
  {
    forall a, n: nat | HasWalk(h, a, a, n) ensures n == 0 {
      WalkInSupergraph(h, g, a, a, n);
    }
  }

  // ----- whole runs

  /** A validated edge addition, or any removal of edges and tasks. */
  datatype Event = Add(task: TaskId, parent: TaskId) | Shrink(rest: Graph)

  ghost function Apply(g: Graph, e: Event): Graph {
    match e
    case Add(t, p) => if Acceptable(g, t, p) then AddEdge(g, t, p) else g
    case Shrink(h) => if Subgraph(h, g) then h else g
  }

  ghost function Run(g: Graph, events: seq<Event>): Graph {
    if events == [] then g
    else Apply(Run(g, events[..|events| - 1]), events[|events| - 1])
  }

  /** Validated additions and arbitrary removals keep a graph acyclic. */
  lemma {:induction false} RunsStayAcyclic(g: Graph, events: seq<Event>)
    requires Acyclic(g)
    ensures Acyclic(Run(g, events))
  {
    if events != [] {
      var before := Run(g, events[..|events| - 1]);
      RunsStayAcyclic(g, events[..|events| - 1]);
      match events[|events| - 1]
      case Add(t, p) => if Acceptable(before, t, p) { AcceptedEdgeKeepsAcyclic(before, t, p); }
      case Shrink(h) => if Subgraph(h, before) { SubgraphAcyclic(h, before); }
    }
  }

  lemma EmptyGraphAcyclic()
    ensures Acyclic(map[])
  {
    forall a, n: nat | HasWalk(map[], a, a, n) ensures n == 0 {
      if n > 0 { var mid := WalkLast(map[], a, a, n); }
    }
  }

  /** From no tasks at all, no sequence of validated additions and removals ever leads to a cycle. */
  lemma ReachableGraphsAcyclic(events: seq<Event>)
    ensures Acyclic(Run(map[], events))
  {
    EmptyGraphAcyclic();
    RunsStayAcyclic(map[], events);
  }

  // ----- stored chains are not bounded by the depth limit

  function Chain(n: nat): (g: Graph)
    ensures forall i: nat :: i in g <==> i < n
    ensures forall i: nat :: i in g ==> g[i] == [i + 1]
  {
    if n == 0 then map[] else Chain(n - 1)[n - 1 := [n]]
  }

  function ChainEvents(n: nat): (e: seq<Event>)
    ensures |e| == n
  {
    seq(n, i requires 0 <= i => Add(i, i + 1))
  }

  lemma {:induction false} ChainWalk(m: nat, a: TaskId, b: TaskId, n: nat)
    ensures HasWalk(Chain(m), a, b, n) <==> b == a + n && (n > 0 ==> b <= m)
    decreases n
  {
    var g := Chain(m);
    if n == 0 {
      WalkZero(g, a, b);
    } else {
      if HasWalk(g, a, b, n) {
        var mid := WalkLast(g, a, b, n);
        ChainWalk(m, a, mid, n - 1);
      }
      if b == a + n && b <= m {
        ChainWalk(m, a, b - 1, n - 1);
        WalkStep(g, a, b - 1, b, n - 1);
      }
    }
  }

  /** Extending a chain at its far end is always accepted, so chains of every length get stored. */
  lemma {:induction false} LongChainsAreReachable(n: nat)
    ensures Run(map[], ChainEvents(n)) == Chain(n)
    ensures HasWalk(Chain(n), 0, n, n)
  {
    ChainWalk(n, 0, n, n);
    if n > 0 {
      var k := n - 1;
      LongChainsAreReachable(k);
      assert ChainEvents(n)[..k] == ChainEvents(k);
      assert k !in Chain(k) && [] + [n] == [n];
      assert AddEdge(Chain(k), k, n) == Chain(k)[k := [n]];
      forall to, m: nat | HasWalk(Chain(n), k, to, m) ensures m <= MAX_DEPENDENCY_DEPTH {
        ChainWalk(n, k, to, m);
      }
      assert Acceptable(Chain(k), k, n);
    }
  }

  // ----- depth map

  ghost predicate Recorded(depths: seq<(TaskId, nat)>, id: TaskId) {
    exists i :: 0 <= i < |depths| && depths[i].0 == id
  }

  /** The map an association list stands for: the first entry of an id counts. */
  ghost function DepthMap(depths: seq<(TaskId, nat)>): map<TaskId, nat> {
    if depths == [] then map[] else DepthMap(depths[1..])[depths[0].0 := depths[0].1]
  }

  lemma {:induction false} RecordedIffMapped(depths: seq<(TaskId, nat)>, id: TaskId)
    ensures id in DepthMap(depths) <==> Recorded(depths, id)
  {
    if depths != [] {
      var rest := depths[1..];
      RecordedIffMapped(rest, id);
      assert forall i :: 0 <= i < |rest| ==> depths[i + 1] == rest[i];
      assert forall i :: 1 <= i < |depths| ==> depths[i] == rest[i - 1];
    }
  }

  lemma {:induction false} FirstEntryCounts(depths: seq<(TaskId, nat)>, i: nat)
    requires i < |depths| && forall j :: 0 <= j < i ==> depths[j].0 != depths[i].0
    ensures depths[i].0 in DepthMap(depths) && DepthMap(depths)[depths[i].0] == depths[i].1
  {
    if i > 0 {
      FirstEntryCounts(depths[1..], i - 1);
    }
  }

  lemma {:induction false} SetFirstEntry(depths: seq<(TaskId, nat)>, i: nat, depth: nat)
    requires i < |depths| && forall j :: 0 <= j < i ==> depths[j].0 != depths[i].0
    ensures DepthMap(depths[i := (depths[i].0, depth)]) == DepthMap(depths)[depths[i].0 := depth]
  {
    var r := depths[i := (depths[i].0, depth)];
    if i > 0 {
      SetFirstEntry(depths[1..], i - 1, depth);
      assert r[1..] == depths[1..][i - 1 := (depths[i].0, depth)];
    } else {
      assert r[1..] == depths[1..];
    }
  }

  lemma {:induction false} AddLastEntry(depths: seq<(TaskId, nat)>, id: TaskId, depth: nat)
    requires !Recorded(depths, id)
    ensures DepthMap(depths + [(id, depth)]) == DepthMap(depths)[id := depth]
  {
    var r := depths + [(id, depth)];
    if depths != [] {
      assert r[1..] == depths[1..] + [(id, depth)];
      assert forall i :: 0 <= i < |depths[1..]| ==> depths[1..][i] == depths[i + 1];
      AddLastEntry(depths[1..], id, depth);
    } else {
      assert r[1..] == [];
    }
  }

  method DepthOf(depths: seq<(TaskId, nat)>, id: TaskId) returns (r: Option<nat>)
    ensures r.Some? <==> Recorded(depths, id)
    ensures r == if id in DepthMap(depths) then Some(DepthMap(depths)[id]) else None
  {
    RecordedIffMapped(depths, id);
    for i := 0 to |depths|
      invariant forall j :: 0 <= j < i ==> depths[j].0 != id
    {
      if depths[i].0 == id {
        FirstEntryCounts(depths, i);
        return Some(depths[i].1);
      }
    }
    return None;
  }

  method SetDepth(depths: seq<(TaskId, nat)>, id: TaskId, depth: nat) returns (r: seq<(TaskId, nat)>)
    ensures DepthMap(r) == DepthMap(depths)[id := depth]
  {
    for i := 0 to |depths|
      invariant forall j :: 0 <= j < i ==> depths[j].0 != id
    {
      if depths[i].0 == id {
        SetFirstEntry(depths, i, depth);
        return depths[i := (id, depth)];
      }
    }
    AddLastEntry(depths, id, depth);
    return depths + [(id, depth)];
  }

  // ----- the reachability search

  /** Every task a search from `from` can meet. */
  ghost function Nodes(g: Graph, from: TaskId): set<TaskId> {
    {from} + set a, b | a in g.Keys && b in g[a] :: b
  }

  /** How much of a finite universe a search still has to visit. */
  ghost function Remaining<T>(universe: set<T>, visited: seq<T>): nat {
    |set v | v in universe && v !in visited|
  }

  lemma RemainingShrinks<T>(universe: set<T>, visited: seq<T>, x: T)
    requires x in universe && x !in visited
    ensures Remaining(universe, visited + [x]) < Remaining(universe, visited)
  {
    var before := set v | v in universe && v !in visited;
    var after := set v | v in universe && v !in visited + [x];
    assert after == before - {x};
  }

  ghost predicate DepthsAreWalks(g: Graph, from: TaskId, depths: map<TaskId, nat>) {
    forall x :: x in depths ==> depths[x] <= MAX_DEPENDENCY_DEPTH && HasWalk(g, from, x, depths[x])
  }

  /** The parents outside a list, in order. */
  function Outside(parents: seq<TaskId>, visited: seq<TaskId>): seq<TaskId> {
    if parents == [] then []
    else
      var init, last := parents[..|parents| - 1], parents[|parents| - 1];
      if last in visited then Outside(init, visited) else Outside(init, visited) + [last]
  }

  lemma {:induction false} OutsideContents(parents: seq<TaskId>, visited: seq<TaskId>)
    ensures forall q :: q in Outside(parents, visited) <==> q in parents && q !in visited
  {
    if parents != [] {
      var init, last := parents[..|parents| - 1], parents[|parents| - 1];
      assert forall q :: q in parents <==> q in init || q == last;
      OutsideContents(init, visited);
    }
  }

  /** Every one of these tasks gets the depth, over whatever depth it had. */
  function AllAt(depths: map<TaskId, nat>, tasks: seq<TaskId>, depth: nat): map<TaskId, nat> {
    if tasks == [] then depths else AllAt(depths, tasks[..|tasks| - 1], depth)[tasks[|tasks| - 1] := depth]
  }

  lemma {:induction false} AllAtEntries(depths: map<TaskId, nat>, tasks: seq<TaskId>, depth: nat, x: TaskId)
    ensures x in AllAt(depths, tasks, depth) <==> x in depths || x in tasks
    ensures x in tasks ==> AllAt(depths, tasks, depth)[x] == depth
    ensures x !in tasks && x in depths ==> AllAt(depths, tasks, depth)[x] == depths[x]
  {
    if tasks != [] {
      var init, last := tasks[..|tasks| - 1], tasks[|tasks| - 1];
      assert x in tasks <==> x in init || x == last;
      AllAtEntries(depths, init, depth, x);
    }
  }

  /** The state of the search: the stack, the visited tasks and the latest depth of each pushed task. */
  datatype Frontier = Frontier(stack: seq<TaskId>, visited: seq<TaskId>, depths: map<TaskId, nat>) {
    predicate Inside(nodes: set<TaskId>) {
      forall x :: x in stack ==> x in nodes
    }

    function Current(): TaskId
      requires stack != []
    {
      stack[|stack| - 1]
    }

    function Depth(): nat
      requires stack != []
    {
      if Current() in depths then depths[Current()] else 0
    }

    /** The task on top is new and above the cut, so that its parents are looked at. */
    predicate Opens()
      requires stack != []
    {
      Current() !in visited && Depth() < MAX_DEPENDENCY_DEPTH
    }

    predicate Hits(g: Graph, to: TaskId)
      requires stack != []
    {
      Current() == to || (Opens() && to in Parents(g, Current()))
    }

    /** Pop the top; a new task is visited, and above the cut its unvisited parents are pushed. */
    function Next(g: Graph): Frontier
      requires stack != []
    {
      var rest := stack[..|stack| - 1];
      if Current() in visited then Frontier(rest, visited, depths)
      else
        var visited' := visited + [Current()];
        var added := if Opens() then Outside(Parents(g, Current()), visited') else [];
        Frontier(rest + added, visited', AllAt(depths, added, Depth() + 1))
    }
  }

  /** Each step visits a new task or shortens the stack. */
  lemma NextShrinks(g: Graph, from: TaskId, f: Frontier)
    requires f.stack != [] && f.Inside(Nodes(g, from))
    ensures f.Next(g).Inside(Nodes(g, from))
    ensures var before, after := Remaining(Nodes(g, from), f.visited), Remaining(Nodes(g, from), f.Next(g).visited);
            after < before || (after == before && |f.Next(g).stack| < |f.stack|)
  {
    if f.Current() !in f.visited {
      RemainingShrinks(Nodes(g, from), f.visited, f.Current());
      OutsideContents(Parents(g, f.Current()), f.visited + [f.Current()]);
    }
  }

  /**
   What the depth-first search finds. A task pushed again before it is visited takes its latest
   depth, so the answer depends on the order of the parents.
   */
  ghost predicate Search(g: Graph, from: TaskId, to: TaskId, f: Frontier)
    requires f.Inside(Nodes(g, from))
    decreases Remaining(Nodes(g, from), f.visited), |f.stack|
  {
    if f.stack == [] then false
    else if f.Hits(g, to) then true
    else
      NextShrinks(g, from, f);
      Search(g, from, to, f.Next(g))
  }

  ghost function Initial(from: TaskId): Frontier {
    Frontier([from], [], map[from := 0])
  }

  /** The whole search from a task. */
  ghost predicate Finds(g: Graph, from: TaskId, to: TaskId) {
    Search(g, from, to, Initial(from))
  }

  /** Tasks whose parents the search has not followed lie exactly at the cut. */
  ghost predicate Expanded(g: Graph, from: TaskId, to: TaskId, v: TaskId, visited: seq<TaskId>, stack: seq<TaskId>) {
    || ReachesDeep(g, from, v, MAX_DEPENDENCY_DEPTH)
    || forall q :: Edge(g, v, q) ==> q != to && (q in visited || q in stack)
  }

  /** No task before the last is also the end of a walk long enough to be cut. */
  ghost predicate Clear(g: Graph, from: TaskId, w: Walk) {
    match w
    case Start(_) => true
    case Then(prefix, _) => Clear(g, from, prefix) && !ReachesDeep(g, from, prefix.Last(), MAX_DEPENDENCY_DEPTH)
  }

  ghost predicate ClearWalkOf(g: Graph, w: Walk, from: TaskId, to: TaskId) {
    w.In(g) && w.First() == from && w.Last() == to && Clear(g, from, w)
  }

  /** There is a walk that no other walk can hide from the search. */
  ghost predicate HasClearWalk(g: Graph, from: TaskId, to: TaskId) {
    exists w :: ClearWalkOf(g, w, from, to)
  }

  lemma {:induction false} ClosedSearchIsComplete(g: Graph, from: TaskId, to: TaskId, visited: seq<TaskId>, w: Walk)
    requires from in visited && to !in visited
    requires forall v :: v in visited ==> Expanded(g, from, to, v, visited, [])
    requires w.In(g) && w.First() == from && Clear(g, from, w)
    ensures w.Last() in visited
  {
    match w
    case Start(_) =>
    case Then(prefix, _) =>
      ClosedSearchIsComplete(g, from, to, visited, prefix);
      assert Expanded(g, from, to, prefix.Last(), visited, []);
  }

  /** Where no walk from the start is longer than the cut, every walk is clear. */
  lemma {:induction false} ShallowWalksAreClear(g: Graph, from: TaskId, w: Walk)
    requires DepthAtMost(g, from, MAX_DEPENDENCY_DEPTH) && w.In(g) && w.First() == from
    ensures Clear(g, from, w)
  {
    match w
    case Start(_) =>
    case Then(prefix, last) =>
      ShallowWalksAreClear(g, from, prefix);
      if ReachesDeep(g, from, prefix.Last(), MAX_DEPENDENCY_DEPTH) {
        var m: nat :| m >= MAX_DEPENDENCY_DEPTH && HasWalk(g, from, prefix.Last(), m);
        WalkStep(g, from, prefix.Last(), last, m);
      }
  }

  lemma ShallowReachIsClear(g: Graph, from: TaskId, to: TaskId)
    requires DepthAtMost(g, from, MAX_DEPENDENCY_DEPTH) && Reaches(g, from, to)
    ensures HasClearWalk(g, from, to)
  {
    var n: nat :| HasWalk(g, from, to, n);
    var w :| WalkOf(g, w, from, to, n);
    ShallowWalksAreClear(g, from, w);
    assert ClearWalkOf(g, w, from, to);
  }

  ghost predicate StackRecorded(nodes: set<TaskId>, stack: seq<TaskId>, depths: map<TaskId, nat>) {
    forall s :: s in stack ==> s in nodes && s in depths
  }

  /** The inner loop: push the unvisited parents of `current`, or stop at the target. */
  method PushParents(g: Graph, to: TaskId, current: TaskId, currentDepth: nat,
                     visited: seq<TaskId>, stack: seq<TaskId>, depths: seq<(TaskId, nat)>)
    returns (hit: bool, stack': seq<TaskId>, depths': seq<(TaskId, nat)>)
    ensures hit <==> Edge(g, current, to)
    ensures !hit ==> stack' == stack + Outside(Parents(g, current), visited)
    ensures !hit ==> DepthMap(depths') == AllAt(DepthMap(depths), Outside(Parents(g, current), visited), currentDepth + 1)
  {
    stack', depths', hit := stack, depths, false;
    var parents := Parents(g, current);
    assert parents[..0] == [];
    for i := 0 to |parents|
      invariant to !in parents[..i]
      invariant stack' == stack + Outside(parents[..i], visited)
      invariant DepthMap(depths') == AllAt(DepthMap(depths), Outside(parents[..i], visited), currentDepth + 1)
    {
      var parent := parents[i];
      assert parents[..i + 1][..i] == parents[..i];
      assert parents[..i + 1] == parents[..i] + [parent];
      if parent == to {
        hit := true;
        return;
      }
      if parent !in visited {
        stack' := stack' + [parent];
        depths' := SetDepth(depths', parent, currentDepth + 1);
        ghost var before := Outside(parents[..i], visited);
        assert (before + [parent])[..|before|] == before;
      }
    }
    assert parents[..|parents|] == parents;
  }

  /** Recorded depths are walks within the cut, and everything stacked is recorded. */
  ghost predicate Recording(g: Graph, from: TaskId, f: Frontier) {
    StackRecorded(Nodes(g, from), f.stack, f.depths) && DepthsAreWalks(g, from, f.depths)
  }

  lemma NextKeepsRecording(g: Graph, from: TaskId, f: Frontier)
    requires f.stack != [] && Recording(g, from, f)
    ensures Recording(g, from, f.Next(g))
  {
    var current, depth, t := f.Current(), f.Depth(), f.Next(g);
    assert current in f.stack;
    if current !in f.visited {
      var added := if f.Opens() then Outside(Parents(g, current), f.visited + [current]) else [];
      OutsideContents(Parents(g, current), f.visited + [current]);
      forall x ensures x in t.depths ==> t.depths[x] <= MAX_DEPENDENCY_DEPTH && HasWalk(g, from, x, t.depths[x]) {
        AllAtEntries(f.depths, added, depth + 1, x);
        if x in added { WalkStep(g, from, current, x, depth); }
      }
      forall x | x in t.stack ensures x in Nodes(g, from) && x in t.depths {
        AllAtEntries(f.depths, added, depth + 1, x);
      }
    }
  }

  /** A search finds only what lies within the cut. */
  lemma {:induction false} SearchIsSound(g: Graph, from: TaskId, to: TaskId, f: Frontier)
    requires Recording(g, from, f) && f.Inside(Nodes(g, from)) && Search(g, from, to, f)
    ensures exists n: nat :: n <= MAX_DEPENDENCY_DEPTH && HasWalk(g, from, to, n)
    decreases Remaining(Nodes(g, from), f.visited), |f.stack|
  {
    assert f.Current() in f.stack;
    if f.Current() == to {
    } else if f.Hits(g, to) {
      WalkStep(g, from, f.Current(), to, f.Depth());
    } else {
      NextShrinks(g, from, f);
      NextKeepsRecording(g, from, f);
      SearchIsSound(g, from, to, f.Next(g));
    }
  }

  /** Every visited task has been expanded, or lies at the cut. */
  ghost predicate Closing(g: Graph, from: TaskId, to: TaskId, f: Frontier) {
    && (from in f.stack || from in f.visited) && to !in f.visited
    && forall v :: v in f.visited ==> Expanded(g, from, to, v, f.visited, f.stack)
  }

  lemma NextKeepsClosing(g: Graph, from: TaskId, to: TaskId, f: Frontier)
    requires f.stack != [] && Recording(g, from, f) && Closing(g, from, to, f) && !f.Hits(g, to)
    ensures Closing(g, from, to, f.Next(g))
  {
    var current, rest, t := f.Current(), f.stack[..|f.stack| - 1], f.Next(g);
    assert f.stack == rest + [current];
    OutsideContents(Parents(g, current), f.visited + [current]);
    ExpandedStays(g, from, to, f.visited, rest, current, t.visited, t.stack);
  }

  /** A search that finds nothing leaves no clear walk to the target. */
  lemma {:induction false} SearchIsComplete(g: Graph, from: TaskId, to: TaskId, f: Frontier)
    requires Recording(g, from, f) && Closing(g, from, to, f) && f.Inside(Nodes(g, from)) && !Search(g, from, to, f)
    ensures !HasClearWalk(g, from, to)
    decreases Remaining(Nodes(g, from), f.visited), |f.stack|
  {
    if f.stack == [] {
      if HasClearWalk(g, from, to) {
        var w :| ClearWalkOf(g, w, from, to);
        ClosedSearchIsComplete(g, from, to, f.visited, w);
      }
    } else {
      NextShrinks(g, from, f);
      NextKeepsRecording(g, from, f);
      NextKeepsClosing(g, from, to, f);
      SearchIsComplete(g, from, to, f.Next(g));
    }
  }

  /**
   The search is sound within the cut, complete along clear walks, and exact where no walk from the
   start is longer than the cut.
   */
  lemma FindsMeaning(g: Graph, from: TaskId, to: TaskId)
    ensures Finds(g, from, to) ==> exists n: nat :: n <= MAX_DEPENDENCY_DEPTH && HasWalk(g, from, to, n)
    ensures HasClearWalk(g, from, to) ==> Finds(g, from, to)
    ensures DepthAtMost(g, from, MAX_DEPENDENCY_DEPTH) ==> (Finds(g, from, to) <==> Reaches(g, from, to))
  {
    WalkZero(g, from, from);
    if Finds(g, from, to) {
      SearchIsSound(g, from, to, Initial(from));
    } else {
      SearchIsComplete(g, from, to, Initial(from));
    }
    if DepthAtMost(g, from, MAX_DEPENDENCY_DEPTH) && Reaches(g, from, to) {
      ShallowReachIsClear(g, from, to);
    }
  }

  /** The body of the loop: pop a task and, if it is new and above the cut, push its parents. */
  method SearchRound(g: Graph, to: TaskId, stack: seq<TaskId>, visited: seq<TaskId>, depths: seq<(TaskId, nat)>)
    returns (hit: bool, stack': seq<TaskId>, visited': seq<TaskId>, depths': seq<(TaskId, nat)>)
    requires stack != []
    ensures hit <==> Frontier(stack, visited, DepthMap(depths)).Hits(g, to)
    ensures !hit ==>
              Frontier(stack', visited', DepthMap(depths')) == Frontier(stack, visited, DepthMap(depths)).Next(g)
  {
    var current := stack[|stack| - 1];
    hit, stack', visited', depths' := false, stack[..|stack| - 1], visited, depths;
    if current == to {
      return true, stack', visited', depths';
    }
    if current in visited {
      return;
    }
    visited' := visited + [current];
    var recorded := DepthOf(depths, current);
    var currentDepth := if recorded.Some? then recorded.value else 0;
    if currentDepth >= MAX_DEPENDENCY_DEPTH {
      return;
    }
    hit, stack', depths' := PushParents(g, to, current, currentDepth, visited', stack', depths');
  }

  method HasPath(g: Graph, from: TaskId, to: TaskId) returns (found: bool)
    ensures found <==> Finds(g, from, to)
    ensures found ==> exists n: nat :: n <= MAX_DEPENDENCY_DEPTH && HasWalk(g, from, to, n)
    ensures HasClearWalk(g, from, to) ==> found
    ensures DepthAtMost(g, from, MAX_DEPENDENCY_DEPTH) ==> (found <==> Reaches(g, from, to))
  {
    FindsMeaning(g, from, to);
    if from == to {
      return true;
    }
    var stack: seq<TaskId>, visited: seq<TaskId>, depths: seq<(TaskId, nat)> := [from], [], [(from, 0)];
    ghost var f := Initial(from);
    assert DepthMap(depths) == f.depths by { assert depths[1..] == []; }
    while |stack| > 0
      invariant f == Frontier(stack, visited, DepthMap(depths)) && f.Inside(Nodes(g, from))
      invariant Search(g, from, to, f) <==> Finds(g, from, to)
      decreases Remaining(Nodes(g, from), visited), |stack|
    {
      SearchUnfolds(g, from, to, f);
      var hit;
      hit, stack, visited, depths := SearchRound(g, to, stack, visited, depths);
      if hit {
        return true;
      }
      f := f.Next(g);
    }
    return false;
  }

  /** One round of the search. */
  lemma SearchUnfolds(g: Graph, from: TaskId, to: TaskId, f: Frontier)
    requires f.stack != [] && f.Inside(Nodes(g, from))
    ensures f.Next(g).Inside(Nodes(g, from))
    ensures Search(g, from, to, f) == if f.Hits(g, to) then true else Search(g, from, to, f.Next(g))
    ensures var before, after := Remaining(Nodes(g, from), f.visited), Remaining(Nodes(g, from), f.Next(g).visited);
            after < before || (after == before && |f.Next(g).stack| < |f.stack|)
  {
    NextShrinks(g, from, f);
  }

  lemma ExpandedStays(g: Graph, from: TaskId, to: TaskId, visited: seq<TaskId>, popped: seq<TaskId>, current: TaskId,
                      visited': seq<TaskId>, stack': seq<TaskId>)
    requires forall v :: v in visited ==> Expanded(g, from, to, v, visited, popped + [current])
    requires popped <= stack'
    requires if current in visited then visited' == visited
             else visited' == visited + [current] && Expanded(g, from, to, current, visited', stack')
    ensures forall v :: v in visited' ==> Expanded(g, from, to, v, visited', stack')
  {
    forall v | v in visited' ensures Expanded(g, from, to, v, visited', stack') {
      if v in visited {
        assert Expanded(g, from, to, v, visited, popped + [current]);
      }
    }
  }

  method WouldCreateCycle(g: Graph, task: TaskId, newParent: TaskId) returns (r: bool)
    ensures r <==> Finds(g, newParent, task)
    ensures r ==> exists n: nat :: n <= MAX_DEPENDENCY_DEPTH && HasWalk(g, newParent, task, n)
    ensures HasClearWalk(g, newParent, task) ==> r
    ensures DepthAtMost(g, newParent, MAX_DEPENDENCY_DEPTH) ==> (r <==> Reaches(g, newParent, task))
  {
    if task == newParent {
      WalkZero(g, newParent, task);
      return true;
    }
    r := HasPath(g, newParent, task);
  }

  // ----- the depth search

  /** r is the length of a longest walk from `start`, or six when there are longer ones. */
  ghost predicate IsCappedDepth(g: Graph, start: TaskId, r: nat) {
    && r <= MAX_DEPENDENCY_DEPTH + 1
    && (exists b :: HasWalk(g, start, b, r))
    && (r <= MAX_DEPENDENCY_DEPTH ==> DepthAtMost(g, start, r))
  }

  ghost function Pairs(nodes: set<TaskId>): set<(TaskId, nat)> {
    set a, d: nat | a in nodes && d <= MAX_DEPENDENCY_DEPTH :: (a, d)
  }

  ghost predicate PairDone(h: Graph, e: (TaskId, nat), seen: seq<(TaskId, nat)>, stack: seq<(TaskId, nat)>) {
    forall q: TaskId :: Edge(h, e.0, q) ==> (q, e.1 + 1) in seen || (q, e.1 + 1) in stack
  }

  lemma {:induction false} ExhaustedSearchSawEveryWalk(h: Graph, start: TaskId, seen: seq<(TaskId, nat)>, b: TaskId, n: nat)
    requires (start, 0) in seen
    requires forall e :: e in seen ==> PairDone(h, e, seen, [])
    requires HasWalk(h, start, b, n)
    ensures (b, n) in seen
    decreases n
  {
    if n == 0 {
      WalkZero(h, start, b);
    } else {
      var mid := WalkLast(h, start, b, n);
      ExhaustedSearchSawEveryWalk(h, start, seen, mid, n - 1);
      assert PairDone(h, (mid, n - 1), seen, []);
    }
  }

  lemma ExhaustedSearchIsDeepest(h: Graph, start: TaskId, seen: seq<(TaskId, nat)>, deepest: nat)
    requires (start, 0) in seen
    requires forall e :: e in seen ==> PairDone(h, e, seen, []) && e.1 <= deepest
    ensures DepthAtMost(h, start, deepest)
  {
    forall b, n: nat | HasWalk(h, start, b, n) ensures n <= deepest {
      ExhaustedSearchSawEveryWalk(h, start, seen, b, n);
    }
  }

  ghost predicate StackedWalks(h: Graph, start: TaskId, stack: seq<(TaskId, nat)>) {
    forall e :: e in stack ==>
      e.0 in Nodes(h, start) && HasWalk(h, start, e.0, e.1) && e.1 <= MAX_DEPENDENCY_DEPTH + 1
  }

  /** The stored parents, with the extra one appended for the edited task unless it is there already. */
  method ParentsWith(g: Graph, start: TaskId, extraParent: TaskId, node: TaskId) returns (parents: seq<TaskId>)
    ensures parents == Parents(AddEdge(g, start, extraParent), node)
  {
    parents := Parents(g, node);
    if node == start && extraParent !in parents {
      parents := parents + [extraParent];
    }
  }

  /** The inner loop: push every parent one level deeper. */
  method PushLevel(ghost h: Graph, ghost start: TaskId, node: TaskId, depth: nat, parents: seq<TaskId>,
                   stack: seq<(TaskId, nat)>)
    returns (stack': seq<(TaskId, nat)>)
    requires parents == Parents(h, node) && HasWalk(h, start, node, depth) && depth <= MAX_DEPENDENCY_DEPTH
    requires StackedWalks(h, start, stack)
    ensures StackedWalks(h, start, stack') && stack <= stack'
    ensures forall q :: q in parents ==> (q, depth + 1) in stack'
  {
    stack' := stack;
    for i := 0 to |parents|
      invariant StackedWalks(h, start, stack') && stack <= stack'
      invariant forall j :: 0 <= j < i ==> (parents[j], depth + 1) in stack'
    {
      WalkStep(h, start, node, parents[i], depth);
      stack' := stack' + [(parents[i], depth + 1)];
    }
  }

  /** Popping a pair and, unless it was seen, pushing all its successors keeps every seen pair done. */
  lemma PairsStayDone(h: Graph, seen: seq<(TaskId, nat)>, popped: seq<(TaskId, nat)>, key: (TaskId, nat),
                      seen': seq<(TaskId, nat)>, stack': seq<(TaskId, nat)>)
    requires forall e :: e in seen ==> PairDone(h, e, seen, popped + [key])
    requires popped <= stack'
    requires if key in seen then seen' == seen else seen' == seen + [key] && PairDone(h, key, [], stack')
    ensures forall e :: e in seen' ==> PairDone(h, e, seen', stack')
  {
    forall e | e in seen' ensures PairDone(h, e, seen', stack') {
      if e in seen {
        assert PairDone(h, e, seen, popped + [key]);
      }
    }
  }

  method MaxDepthFrom(g: Graph, start: TaskId, extraParent: TaskId) returns (r: nat)
    ensures IsCappedDepth(AddEdge(g, start, extraParent), start, r)
  {
    ghost var h := AddEdge(g, start, extraParent);
    WalkZero(h, start, start);
    var stack: seq<(TaskId, nat)> := [(start, 0)];
    var maxDepth := 0;
    ghost var deepest := start;
    var visited: seq<(TaskId, nat)> := [];
    ghost var pairs := Pairs(Nodes(h, start));
    while |stack| > 0
      invariant StackedWalks(h, start, stack)
      invariant forall e :: e in visited ==> e.1 <= maxDepth
      invariant maxDepth <= MAX_DEPENDENCY_DEPTH && HasWalk(h, start, deepest, maxDepth)
      invariant (start, 0) in stack || (start, 0) in visited
      invariant forall e :: e in visited ==> PairDone(h, e, visited, stack)
      decreases Remaining(pairs, visited), |stack|
    {
      var key := stack[|stack| - 1];
      var (node, depth) := key;
      ghost var popped, earlier := stack[..|stack| - 1], visited;
      assert stack == popped + [key];
      stack := stack[..|stack| - 1];
      if depth > MAX_DEPENDENCY_DEPTH {
        return depth;
      }
      if depth > maxDepth {
        maxDepth, deepest := depth, node;
      }
      if key in visited {
        PairsStayDone(h, earlier, popped, key, visited, stack);
        continue;
      }
      RemainingShrinks(pairs, visited, key);
      visited := visited + [key];
      var parents := ParentsWith(g, start, extraParent, node);
      stack := PushLevel(h, start, node, depth, parents, stack);
      PairsStayDone(h, earlier, popped, key, visited, stack);
    }
    ExhaustedSearchIsDeepest(h, start, visited, maxDepth);
    return maxDepth;
  }

  // ----- the validator

  method ValidateNewDependency(g: Graph, task: TaskId, newParent: TaskId) returns (r: Validation)
    ensures r.Accepted? <==> Acceptable(g, task, newParent)
    ensures r.SelfDependency? <==> task == newParent
    ensures r.DependencyLimitExceeded? <==>
            task != newParent && newParent !in Parents(g, task) && |Parents(g, task)| >= MAX_PARENTS
    ensures r.CircularDependency? <==>
            && task != newParent && (newParent in Parents(g, task) || |Parents(g, task)| < MAX_PARENTS)
            && Finds(g, newParent, task)
    ensures r.CircularDependency? ==>
              exists n: nat :: n <= MAX_DEPENDENCY_DEPTH && HasWalk(g, newParent, task, n)
    ensures r.DependencyDepthExceeded? ==>
              !DepthAtMost(AddEdge(g, task, newParent), task, MAX_DEPENDENCY_DEPTH)
    // a cycle is reported as such along every clear walk, and always where the cut cannot be reached
    ensures r.DependencyDepthExceeded? ==> !HasClearWalk(g, newParent, task)
    ensures r.DependencyDepthExceeded? && DepthAtMost(g, newParent, MAX_DEPENDENCY_DEPTH) ==>
              !Reaches(g, newParent, task)
  {
    if task == newParent {
      return SelfDependency;
    }
    var parents := Parents(g, task);
    if |parents| >= MAX_PARENTS && newParent !in parents {
      return DependencyLimitExceeded;
    }
    var cycle := WouldCreateCycle(g, task, newParent);
    if cycle {
      ghost var n: nat :| n <= MAX_DEPENDENCY_DEPTH && HasWalk(g, newParent, task, n);
      ClosingEdgeNotAcceptable(g, task, newParent, n);
      return CircularDependency;
    }
    var depth := MaxDepthFrom(g, task, newParent);
    if depth > MAX_DEPENDENCY_DEPTH {
      return DependencyDepthExceeded;
    }
    return Accepted;
  }

  /** An edge that closes a cycle of any length breaks the depth bound. */
  lemma ClosingEdgeNotAcceptable(g: Graph, task: TaskId, newParent: TaskId, n: nat)
    requires HasWalk(g, newParent, task, n)
    ensures !Acceptable(g, task, newParent)
  {
    var h := AddEdge(g, task, newParent);
    AddEdgeSupergraph(g, task, newParent);
    AddEdgeParents(g, task, newParent, task, newParent);
    WalkInSupergraph(g, h, newParent, task, n);
    WalkZero(h, task, task);
    WalkStep(h, task, task, newParent, 0);
    WalkConcat(h, task, newParent, task, 1, n);
    ClosedWalkUnbounded(h, task, n + 1, MAX_DEPENDENCY_DEPTH);
  }

  /** `add_dependency` on the stored graph: validate, then append the parent if it is new. */
  method AddDependency(g: Graph, task: TaskId, parent: TaskId) returns (r: Validation, g': Graph)
    ensures g' == Apply(g, Add(task, parent))
    ensures r.Accepted? <==> Acceptable(g, task, parent)
  {
    r := ValidateNewDependency(g, task, parent);
    g' := g;
    if r.Accepted? && parent !in Parents(g, task) {
      g' := g[task := Parents(g, task) + [parent]];
    }
  }

  /** `remove_dependency`: rebuild the list without the parent. */
  method RemoveDependency(g: Graph, task: TaskId, parent: TaskId) returns (g': Graph)
    requires task in g
    ensures g' == Apply(g, Shrink(g'))
    ensures Parents(g', task) == Outside(Parents(g, task), [parent])
    ensures forall b :: b in Parents(g', task) <==> b in Parents(g, task) && b != parent
    ensures forall a :: a != task ==> Parents(g', a) == Parents(g, a)
  {
    var kept: seq<TaskId> := [];
    assert g[task][..0] == [];
    for i := 0 to |g[task]|
      invariant kept == Outside(g[task][..i], [parent])
    {
      assert g[task][..i + 1][..i] == g[task][..i];
      if g[task][i] != parent {
        kept := kept + [g[task][i]];
      }
    }
    assert g[task][..|g[task]|] == g[task];
    OutsideContents(g[task], [parent]);
    g' := g[task := kept];
  }

  /**
   The cut search overlooks the cycle that closing a chain of k >= 6 edges would create; the
   depth search is what rejects it.
   */
  method LongCycleIsCaughtByDepthOnly(k: nat) returns (found: bool, r: Validation)
    requires k > MAX_DEPENDENCY_DEPTH
    ensures Reaches(Chain(k), 0, k) && !found && r == DependencyDepthExceeded
  {
    var g := Chain(k);
    ChainWalk(k, 0, k, k);
    forall n: nat | HasWalk(g, 0, k, n) ensures n == k { ChainWalk(k, 0, k, n); }
    found := WouldCreateCycle(g, k, 0);
    ClosingEdgeNotAcceptable(g, k, 0, k);
    r := ValidateNewDependency(g, k, 0);
  }

  // ----- short paths the search misses

  /** Each task has the next one as its only parent, and none occurs twice. */
  predicate Straight(g: Graph, path: seq<TaskId>) {
    && (forall i :: 0 <= i < |path| - 1 ==> Parents(g, path[i]) == [path[i + 1]])
    && forall i, j :: 0 <= i < j < |path| ==> path[i] != path[j]
  }

  /** The last task of a path as long as the cut. */
  function Hidden(path: seq<TaskId>): TaskId
    requires |path| == MAX_DEPENDENCY_DEPTH
  {
    path[MAX_DEPENDENCY_DEPTH - 1]
  }

  /** The task waits for the hidden one directly and, listed later, by a detour along the path. */
  predicate Detour(g: Graph, task: TaskId, path: seq<TaskId>) {
    && |path| == MAX_DEPENDENCY_DEPTH && Straight(g, path) && task !in path
    && Parents(g, task) == [Hidden(path), path[0]]
  }

  /** One step of the search that hits nothing. */
  predicate Quiet(g: Graph, to: TaskId, f: Frontier, next: Frontier) {
    f.stack != [] && !f.Hits(g, to) && f.Next(g) == next
  }

  /** A search that runs to the end without a hit. */
  predicate QuietRun(g: Graph, to: TaskId, trace: seq<Frontier>) {
    && trace != []
    && if |trace| == 1 then trace[0].stack == [] else Quiet(g, to, trace[0], trace[1]) && QuietRun(g, to, trace[1..])
  }

  lemma QuietCons(g: Graph, to: TaskId, f: Frontier, trace: seq<Frontier>)
    requires QuietRun(g, to, trace) && Quiet(g, to, f, trace[0])
    ensures QuietRun(g, to, [f] + trace) && ([f] + trace)[0] == f
  {
    assert ([f] + trace)[1..] == trace;
  }

  lemma {:induction false} QuietRunFindsNothing(g: Graph, from: TaskId, to: TaskId, trace: seq<Frontier>)
    requires QuietRun(g, to, trace) && trace[0].Inside(Nodes(g, from))
    ensures !Search(g, from, to, trace[0])
    decreases |trace|
  {
    if |trace| > 1 {
      NextShrinks(g, from, trace[0]);
      QuietRunFindsNothing(g, from, to, trace[1..]);
    }
  }

  /** A task with a single unvisited parent gives its place on the stack to that parent. */
  lemma FollowOne(g: Graph, to: TaskId, f: Frontier, rest: seq<TaskId>, current: TaskId, parent: TaskId)
    requires f.stack == rest + [current] && f.Opens() && Parents(g, current) == [parent]
    requires parent !in f.visited && parent != current && current != to && parent != to
    ensures Quiet(g, to, f, Frontier(rest + [parent], f.visited + [current], f.depths[parent := f.Depth() + 1]))
  {
    assert [parent][..0] == [];
    assert Outside([parent], f.visited + [current]) == [parent];
    assert AllAt(f.depths, [parent], f.Depth() + 1) == f.depths[parent := f.Depth() + 1];
  }

  lemma PushTwo(x: TaskId, y: TaskId, visited: seq<TaskId>, depths: map<TaskId, nat>, depth: nat)
    requires x !in visited && y !in visited
    ensures Outside([x] + [y], visited) == [x] + [y]
    ensures AllAt(depths, [x] + [y], depth) == depths[x := depth][y := depth]
  {
    assert ([x] + [y])[..1] == [x] && [x][..0] == [];
    assert Outside([x], visited) == [x];
    assert AllAt(depths, [x], depth) == depths[x := depth];
  }

  /** The search runs to the end from here without a hit. */
  ghost predicate Fruitless(g: Graph, to: TaskId, f: Frontier) {
    exists trace :: QuietRun(g, to, trace) && trace[0] == f
  }

  lemma FruitlessBefore(g: Graph, to: TaskId, f: Frontier, next: Frontier)
    requires Quiet(g, to, f, next) && Fruitless(g, to, next)
    ensures Fruitless(g, to, f)
  {
    var trace :| QuietRun(g, to, trace) && trace[0] == next;
    QuietCons(g, to, f, trace);
  }

  /** The first step of the search pushes both parents. */
  lemma DetourStart(g: Graph, task: TaskId, path: seq<TaskId>, to: TaskId) returns (f: Frontier)
    requires Detour(g, task, path) && to != task && to !in path
    ensures Quiet(g, to, Initial(task), f)
    ensures f.stack == [Hidden(path)] + [path[0]] && f.visited == [task]
    ensures path[0] in f.depths && f.depths[path[0]] == 1
  {
    var x, y := Hidden(path), path[0];
    var start, parents := Initial(task), [x] + [y];
    f := Frontier(parents, [task], start.depths[x := 1][y := 1]);
    assert x in path && y in path;
    PushTwo(x, y, [task], start.depths, 1);
    assert start.Current() == task && start.Opens() && start.Depth() == 0;
    assert start.visited + [task] == [task] && start.stack[..0] + parents == parents && Parents(g, task) == parents;
  }

  /** At the end of the detour the hidden task is cut, and its older place on the stack is skipped. */
  lemma DetourEnd(g: Graph, to: TaskId, hidden: TaskId, f: Frontier)
    requires f.stack == [hidden] + [hidden] && hidden !in f.visited && to != hidden
    requires hidden in f.depths && f.depths[hidden] == MAX_DEPENDENCY_DEPTH
    ensures Fruitless(g, to, f)
  {
    var f1 := Frontier([hidden], f.visited + [hidden], f.depths);
    var f2 := Frontier([], f1.visited, f.depths);
    assert Quiet(g, to, f, f1) && Quiet(g, to, f1, f2);
    assert QuietRun(g, to, [f2]);
    FruitlessBefore(g, to, f1, f2);
    FruitlessBefore(g, to, f, f1);
  }

  /** Along the detour each task gives way to its parent, one level deeper, down to the cut. */
  lemma {:induction false} DetourFollowed(g: Graph, to: TaskId, f: Frontier, hidden: TaskId, path: seq<TaskId>)
    requires 1 <= |path| <= MAX_DEPENDENCY_DEPTH && path[|path| - 1] == hidden && Straight(g, path) && to !in path
    requires f.stack == [hidden] + [path[0]] && forall x :: x in path ==> x !in f.visited
    requires path[0] in f.depths && f.depths[path[0]] == MAX_DEPENDENCY_DEPTH + 1 - |path|
    ensures Fruitless(g, to, f)
    decreases |path|
  {
    if |path| == 1 {
      DetourEnd(g, to, hidden, f);
    } else {
      var current, parent, rest := path[0], path[1], path[1..];
      assert f.Current() == current && current in path && parent in path;
      FollowOne(g, to, f, [hidden], current, parent);
      var next := Frontier([hidden] + [parent], f.visited + [current], f.depths[parent := f.Depth() + 1]);
      forall i | 0 <= i < |rest| ensures rest[i] == path[i + 1] && rest[i] != current && rest[i] in path {}
      DetourFollowed(g, to, next, hidden, rest);
      FruitlessBefore(g, to, f, next);
    }
  }

  /** The detour is followed first and overwrites the depth of the hidden task, whose parents are then never looked at. */
  lemma DetourHides(g: Graph, task: TaskId, path: seq<TaskId>, to: TaskId)
    requires Detour(g, task, path) && to != task && to !in path
    ensures !Finds(g, task, to)
  {
    var f := DetourStart(g, task, path, to);
    DetourFollowed(g, to, f, Hidden(path), path);
    FruitlessBefore(g, to, Initial(task), f);
    var trace :| QuietRun(g, to, trace) && trace[0] == Initial(task);
    QuietRunFindsNothing(g, task, to, trace);
  }

  /**
   Not even a path of two edges is always found: wherever there is a detour, making a parent of the
   hidden task wait for the first one closes a cycle of three edges that is reported as too deep.
   */
  method ShortCycleIsMissed(g: Graph, task: TaskId, path: seq<TaskId>, to: TaskId) returns (found: bool, r: Validation)
    requires Detour(g, task, path) && Edge(g, Hidden(path), to) && to != task && to !in path
    requires |Parents(g, to)| < MAX_PARENTS
    ensures HasWalk(g, task, to, 2) && !found && r == DependencyDepthExceeded
  {
    WalkZero(g, task, task);
    WalkStep(g, task, task, Hidden(path), 0);
    WalkStep(g, task, Hidden(path), to, 1);
    DetourHides(g, task, path, to);
    found := WouldCreateCycle(g, to, task);
    ClosingEdgeNotAcceptable(g, to, task, 2);
    r := ValidateNewDependency(g, to, task);
  }

  /** A task all of whose parents are without parents has depth one. */
  lemma LeafParentsShallow(g: Graph, t: TaskId)
    requires forall q :: Edge(g, t, q) ==> Parents(g, q) == []
    ensures DepthAtMost(g, t, MAX_DEPENDENCY_DEPTH)
  {
    forall to, n: nat | HasWalk(g, t, to, n) ensures n <= 1 {
      if n >= 2 {
        var b := WalkPrefix(g, t, to, 2, n);
        var q := WalkLast(g, t, b, 2);
        var start := WalkLast(g, t, q, 1);
        WalkZero(g, t, start);
      }
    }
  }

  /** Adding a parent without parents to a task all of whose parents are without parents is accepted. */
  lemma LeafStep(g: Graph, events: seq<Event>, t: TaskId, p: TaskId)
    requires Run(map[], events) == g && t != p && p !in Parents(g, t) && |Parents(g, t)| < MAX_PARENTS
    requires Parents(g, p) == [] && forall q :: Edge(g, t, q) ==> q != t && Parents(g, q) == []
    ensures Run(map[], events + [Add(t, p)]) == g[t := Parents(g, t) + [p]]
  {
    var h := AddEdge(g, t, p);
    forall q | Edge(h, t, q) ensures Parents(h, q) == [] { AddEdgeParents(g, t, p, t, q); }
    LeafParentsShallow(h, t);
    assert (events + [Add(t, p)])[..|events|] == events;
  }

  /** A straight path is stored edge by edge. */
  lemma {:induction false} PathIsReachable(events: seq<Event>, path: seq<TaskId>) returns (longer: seq<Event>)
    requires path != [] && forall i, j :: 0 <= i < j < |path| ==> path[i] != path[j]
    requires forall x :: x in path ==> Parents(Run(map[], events), x) == []
    ensures Straight(Run(map[], longer), path)
    ensures forall x :: x !in path[..|path| - 1] ==> Parents(Run(map[], longer), x) == Parents(Run(map[], events), x)
    decreases |path|
  {
    longer := events;
    if |path| > 1 {
      var g, rest := Run(map[], events), path[1..];
      assert path[0] in path && path[1] in path;
      LeafStep(g, events, path[0], path[1]);
      forall i | 0 <= i < |rest| ensures rest[i] == path[i + 1] && rest[i] != path[0] && rest[i] in path {}
      longer := PathIsReachable(events + [Add(path[0], path[1])], rest);
      assert path[..|path| - 1] == [path[0]] + rest[..|rest| - 1];
      assert path[0] !in rest[..|rest| - 1];
      forall i | 0 <= i < |path| - 1 ensures Parents(Run(map[], longer), path[i]) == [path[i + 1]] {
        if i > 0 { assert path[i] == rest[i - 1] && path[i + 1] == rest[i]; }
      }
    }
  }

  /** The validator lets every such graph be stored. */
  lemma DetourIsReachable(task: TaskId, path: seq<TaskId>, to: TaskId) returns (events: seq<Event>)
    requires |path| == MAX_DEPENDENCY_DEPTH && task !in path && to !in path && to != task
    requires forall i, j :: 0 <= i < j < |path| ==> path[i] != path[j]
    ensures var g := Run(map[], events);
            Detour(g, task, path) && Edge(g, Hidden(path), to) && Parents(g, to) == []
  {
    var x, y := Hidden(path), path[0];
    assert x in path && y in path;
    var g0: Graph, none: seq<Event> := map[], [];
    LeafStep(g0, none, task, x);
    var g1: Graph, one := g0[task := Parents(g0, task) + [x]], none + [Add(task, x)];
    assert Parents(g1, task) == [x] && forall q :: q != task ==> Parents(g1, q) == [];
    LeafStep(g1, one, task, y);
    var g2: Graph, two := g1[task := Parents(g1, task) + [y]], one + [Add(task, y)];
    assert Parents(g2, task) == [x, y] && forall q :: q != task ==> Parents(g2, q) == [];
    var built := PathIsReachable(two, path);
    events := DetourCompleted(built, task, path, to);
  }

  lemma DetourCompleted(built: seq<Event>, task: TaskId, path: seq<TaskId>, to: TaskId) returns (events: seq<Event>)
    requires Detour(Run(map[], built), task, path) && to !in path && to != task
    requires Parents(Run(map[], built), Hidden(path)) == [] && Parents(Run(map[], built), to) == []
    ensures var g := Run(map[], events);
            Detour(g, task, path) && Edge(g, Hidden(path), to) && Parents(g, to) == []
  {
    var g, x := Run(map[], built), Hidden(path);
    assert x in path;
    LeafStep(g, built, x, to);
    events := built + [Add(x, to)];
    forall i | 0 <= i < |path| - 1 ensures Parents(Run(map[], events), path[i]) == [path[i + 1]] {
      assert path[i] != x;
    }
  }
}
