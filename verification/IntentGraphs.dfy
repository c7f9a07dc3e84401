/** Intent graphs and their depth-first dependency check (core/intent_graph.py). */
module IntentGraphs {
  import opened Common

  datatype NodeType = Goal | Intent | SubIntent | Action | Consequence

  datatype Relation = Contains | DependsOn | Produces | Causes

  /** `payload` stands for the node's metadata. */
  datatype Node<P> = Node(id: string, kind: NodeType, payload: P)

  datatype Edge = Edge(source: string, relation: Relation, target: string)

  datatype Graph<P> = Graph(nodes: seq<Node<P>>, edges: seq<Edge>)

  function DependenciesOf(edges: seq<Edge>, id: string): (r: seq<string>)
    ensures forall x :: x in r <==> Edge(id, DependsOn, x) in edges
  {
    if edges == [] then []
    else
      var front := DependenciesOf(edges[..|edges| - 1], id);
      var e := Last(edges);
      assert edges == edges[..|edges| - 1] + [e];
      if e.source == id && e.relation == DependsOn then front + [e.target] else front
  }

  function NodeIds<P>(g: Graph<P>): (r: seq<string>)
    ensures |r| == |g.nodes|
  {
    seq(|g.nodes|, i requires 0 <= i < |g.nodes| => g.nodes[i].id)
  }

  // ----------------------------------------------------------- declarative view

  ghost predicate UniqueIds<P>(g: Graph<P>) {
    Distinct(NodeIds(g))
  }

  predicate ClosedEdge<P>(g: Graph<P>, e: Edge) {
    e.source in NodeIds(g) && e.target in NodeIds(g)
  }

  predicate ClosedEdges<P>(g: Graph<P>) {
    forall e :: e in g.edges ==> ClosedEdge(g, e)
  }

  /** A non-empty walk along DEPENDS_ON edges. */
  ghost predicate IsPath(edges: seq<Edge>, p: seq<string>) {
    p != [] && forall i :: 0 <= i < |p| - 1 ==> p[i + 1] in DependenciesOf(edges, p[i])
  }

  /** A walk from `root` that ends on a node it already passed at position `i`:
      a cycle together with the way to it. */
  ghost predicate IsLasso(edges: seq<Edge>, root: string, p: seq<string>, i: nat) {
    IsPath(edges, p) && p[0] == root && i < |p| - 1 && p[i] == Last(p)
  }

  ghost predicate CycleBelow(edges: seq<Edge>, root: string) {
    exists p, i :: IsLasso(edges, root, p, i)
  }

  ghost predicate HasCycle(edges: seq<Edge>) {
    exists p :: IsPath(edges, p) && |p| > 1 && p[0] == Last(p)
  }

  ghost predicate DeclaredCycle<P>(g: Graph<P>) {
    exists root :: root in NodeIds(g) && CycleBelow(g.edges, root)
  }

  datatype GraphError = DuplicateIds | UnknownNode | DependencyCycle

  /** The exact error tuple of `validate`. */
  ghost function ExpectedErrors<P>(g: Graph<P>): seq<GraphError> {
    (if UniqueIds(g) then [] else [DuplicateIds])
    + (if ClosedEdges(g) then [] else [UnknownNode])
    + (if DeclaredCycle(g) then [DependencyCycle] else [])
  }

  /** No errors exactly when ids are unique, edges are closed and DEPENDS_ON has
      no cycle anywhere. */
  lemma NoErrorsMeansAcyclic<P>(g: Graph<P>)
    ensures ExpectedErrors(g) == [] <==> UniqueIds(g) && ClosedEdges(g) && !HasCycle(g.edges)
    ensures UniqueIds(g) <==> forall i, j :: 0 <= i < j < |g.nodes| ==> g.nodes[i].id != g.nodes[j].id
    ensures ClosedEdges(g) <==>
              forall e :: e in g.edges ==>
                && (exists i :: 0 <= i < |g.nodes| && g.nodes[i].id == e.source)
                && (exists i :: 0 <= i < |g.nodes| && g.nodes[i].id == e.target)
  {
    IdsAreNodeIds(g);
    if DeclaredCycle(g) {
      var root :| root in NodeIds(g) && CycleBelow(g.edges, root);
      LassoHasCycle(g.edges, root);
    }
    if ClosedEdges(g) && HasCycle(g.edges) {
      CycleIsDeclared(g);
    }
  }

  lemma IdsAreNodeIds<P>(g: Graph<P>)
    ensures forall i :: 0 <= i < |g.nodes| ==> NodeIds(g)[i] == g.nodes[i].id
    ensures forall id :: id in NodeIds(g) <==> exists i :: 0 <= i < |g.nodes| && g.nodes[i].id == id
  {
    forall id ensures id in NodeIds(g) <==> exists i :: 0 <= i < |g.nodes| && g.nodes[i].id == id {
      if id in NodeIds(g) {
        var i :| 0 <= i < |NodeIds(g)| && NodeIds(g)[i] == id;
      }
      if i :| 0 <= i < |g.nodes| && g.nodes[i].id == id {
        assert NodeIds(g)[i] == id;
      }
    }
  }

  lemma LassoHasCycle(edges: seq<Edge>, root: string)
    requires CycleBelow(edges, root)
    ensures HasCycle(edges)
  {
    var p: seq<string>, i: nat :| IsLasso(edges, root, p, i);
    PartsArePaths(edges, p, i);
    assert |p[i..]| > 1 && p[i..][0] == Last(p[i..]);
  }

  lemma CycleIsDeclared<P>(g: Graph<P>)
    requires ClosedEdges(g) && HasCycle(g.edges)
    ensures DeclaredCycle(g)
  {
    var p :| IsPath(g.edges, p) && |p| > 1 && p[0] == Last(p);
    assert p[0 + 1] in DependenciesOf(g.edges, p[0]);
    assert ClosedEdge(g, Edge(p[0], DependsOn, p[1]));
    assert IsLasso(g.edges, p[0], p, 0);
  }

  // ------------------------------------------------------- order of completion

  /** Every dependency of a finished node finished before it. */
  ghost predicate Finished(edges: seq<Edge>, order: seq<string>) {
    forall i, d :: 0 <= i < |order| && d in DependenciesOf(edges, order[i]) ==> d in order[..i]
  }

  lemma FinishedAppend(edges: seq<Edge>, order: seq<string>, id: string)
    requires Finished(edges, order)
    requires forall d :: d in DependenciesOf(edges, id) ==> d in order
    ensures Finished(edges, order + [id])
  {
    var longer := order + [id];
    forall i, d | 0 <= i < |longer| && d in DependenciesOf(edges, longer[i]) ensures d in longer[..i] {
      if i < |order| {
        assert longer[..i] == order[..i];
      } else {
        assert longer[..i] == order;
      }
    }
  }

  /** Walks through finished nodes go strictly back in the order, so they never
      meet the same node twice. */
  lemma {:induction false} FinishedPathDescends(edges: seq<Edge>, order: seq<string>, p: seq<string>, k: nat)
    requires Finished(edges, order) && IsPath(edges, p)
    requires k <= |order| && p[0] in order[..k]
    ensures |p| > 1 ==> exists j :: 0 <= j < k && order[j] == p[0] && Last(p) in order[..j]
    decreases |p|
  {
    if |p| > 1 {
      var j :| 0 <= j < k && order[j] == p[0];
      assert p[0 + 1] in DependenciesOf(edges, p[0]);
      assert p[1] in order[..j];
      if |p| > 2 {
        assert IsPath(edges, p[1..]) by {
          forall i | 0 <= i < |p[1..]| - 1 ensures p[1..][i + 1] in DependenciesOf(edges, p[1..][i]) {
            assert p[i + 1 + 1] in DependenciesOf(edges, p[i + 1]);
          }
        }
        FinishedPathDescends(edges, order, p[1..], j);
      }
    }
  }

  lemma {:induction false} FinishedHasNoReturn(edges: seq<Edge>, order: seq<string>, p: seq<string>, k: nat)
    requires Finished(edges, order) && IsPath(edges, p) && |p| > 1 && p[0] == Last(p)
    requires k <= |order| && p[0] in order[..k]
    ensures false
    decreases k
  {
    FinishedPathDescends(edges, order, p, k);
    var j :| 0 <= j < k && order[j] == p[0] && Last(p) in order[..j];
    FinishedHasNoReturn(edges, order, p, j);
  }

  lemma FinishedIsAcyclic(edges: seq<Edge>, order: seq<string>, root: string)
    requires Finished(edges, order) && root in order
    ensures !CycleBelow(edges, root)
  {
    if CycleBelow(edges, root) {
      var p: seq<string>, i: nat :| IsLasso(edges, root, p, i);
      PartsArePaths(edges, p, i);
      assert order[..|order|] == order;
      if i > 0 {
        FinishedPathDescends(edges, order, p[..i + 1], |order|);
      }
      FinishedHasNoReturn(edges, order, p[i..], |order|);
    }
  }

  lemma PartsArePaths(edges: seq<Edge>, p: seq<string>, i: nat)
    requires IsPath(edges, p) && i < |p|
    ensures IsPath(edges, p[..i + 1]) && IsPath(edges, p[i..])
  {
    var tail := p[i..];
    forall j | 0 <= j < |tail| - 1 ensures tail[j + 1] in DependenciesOf(edges, tail[j]) {
      assert p[i + j + 1] in DependenciesOf(edges, p[i + j]);
    }
  }

  // --------------------------------------------------------- the imperative scan

  /** Repeated messages are reported once, in the order of first occurrence. */
  function AddOnce<T(==)>(acc: seq<T>, e: T): seq<T> {
    if e in acc then acc else acc + [e]
  }

  function Deduplicate<T(==)>(s: seq<T>): seq<T> {
    if s == [] then [] else AddOnce(Deduplicate(s[..|s| - 1]), Last(s))
  }

  lemma DeduplicateAppend<T>(s: seq<T>, e: T)
    ensures Deduplicate(s + [e]) == AddOnce(Deduplicate(s), e)
  {
    assert (s + [e])[..|s|] == s;
  }

  lemma {:induction false} DeduplicateKeeps<T>(s: seq<T>)
    ensures forall e :: e in s <==> e in Deduplicate(s)
  {
    if s != [] {
      DeduplicateKeeps(s[..|s| - 1]);
      assert s == s[..|s| - 1] + [Last(s)];
    }
  }

  lemma {:induction false} DistinctByCount<T>(s: seq<T>)
    ensures |Elements(s)| <= |s|
    ensures |Elements(s)| == |s| <==> Distinct(s)
  {
    if s != [] {
      var front := s[..|s| - 1];
      DistinctByCount(front);
      assert s == front + [Last(s)];
      assert Elements(s) == Elements(front) + {Last(s)};
      if Last(s) in front {
        var i :| 0 <= i < |front| && front[i] == Last(s);
        assert s[i] == s[|s| - 1];
        assert Elements(s) == Elements(front);
      }
    }
  }

  /** Everything the walk can step on. */
  ghost function Universe<P>(g: Graph<P>): set<string> {
    (set x | x in NodeIds(g)) + (set e | e in g.edges :: e.target)
  }

  class Validator<P(==)> {
    const graph: Graph<P>
    var errors: seq<GraphError>
    var visiting: set<string>
    var visited: set<string>
    /** Completion order, kept for the proof. */
    ghost var order: seq<string>

    constructor (g: Graph<P>)
      ensures graph == g && errors == [] && visiting == {} && visited == {} && order == []
    {
      graph, errors, visiting, visited, order := g, [], {}, {}, [];
    }

    ghost predicate Consistent()
      reads this
    {
      && (forall x :: x in visited <==> x in order)
      && (DependencyCycle !in errors ==> Finished(graph.edges, order))
    }

    method Report(e: GraphError)
      modifies this`errors
      ensures errors == old(errors) + [e]
    {
      errors := errors + [e];
    }

    /** The nested `visit`; `trail` is the walk from a declared node down to the
        caller, whose elements are the nodes being visited. */
    method Visit(id: string, ghost trail: seq<string>)
      requires Consistent() && id in Universe(graph)
      requires IsPath(graph.edges, trail + [id])
      requires forall x :: x in visiting <==> x in trail
      modifies this`errors, this`visiting, this`visited, this`order
      ensures Consistent() && visiting == old(visiting) && old(visited) <= visited
      ensures Deduplicate(errors) == old(Deduplicate(errors))
           || Deduplicate(errors) == AddOnce(old(Deduplicate(errors)), DependencyCycle)
      ensures forall e :: e in old(errors) ==> e in errors
      ensures DependencyCycle in errors && DependencyCycle !in old(errors) ==>
                CycleBelow(graph.edges, (trail + [id])[0])
      ensures DependencyCycle !in errors ==> id in visited
      decreases Universe(graph) - visiting, 0, 0
    {
      if id in visiting {
        ghost var i :| 0 <= i < |trail| && trail[i] == id;
        assert IsLasso(graph.edges, (trail + [id])[0], trail + [id], i);
        DeduplicateAppend(errors, DependencyCycle);
        Report(DependencyCycle);
        return;
      }
      if id in visited {
        return;
      }
      ghost var before := visiting;
      visiting := visiting + {id};
      VisitAll(DependenciesOf(graph.edges, id), id, trail + [id]);
      Finish(id);
      assert visiting == before;
    }

    method Finish(id: string)
      requires Consistent()
      requires DependencyCycle !in errors ==>
                 forall d :: d in DependenciesOf(graph.edges, id) ==> d in visited
      modifies this`visiting, this`visited, this`order
      ensures Consistent() && visiting == old(visiting) - {id} && visited == old(visited) + {id}
    {
      visiting := visiting - {id};
      visited := visited + {id};
      if DependencyCycle !in errors {
        FinishedAppend(graph.edges, order, id);
      }
      order := order + [id];
    }

    method VisitAll(deps: seq<string>, id: string, ghost trail: seq<string>)
      requires Consistent() && deps == DependenciesOf(graph.edges, id)
      requires IsPath(graph.edges, trail) && Last(trail) == id
      requires forall x :: x in visiting <==> x in trail
      modifies this`errors, this`visiting, this`visited, this`order
      ensures Consistent() && visiting == old(visiting) && old(visited) <= visited
      ensures Deduplicate(errors) == old(Deduplicate(errors))
           || Deduplicate(errors) == AddOnce(old(Deduplicate(errors)), DependencyCycle)
      ensures forall e :: e in old(errors) ==> e in errors
      ensures DependencyCycle in errors && DependencyCycle !in old(errors) ==> CycleBelow(graph.edges, trail[0])
      ensures DependencyCycle !in errors ==> forall d :: d in deps ==> d in visited
      decreases Universe(graph) - visiting, 1, 0
    {
      for k := 0 to |deps|
        invariant Consistent() && visiting == old(visiting) && old(visited) <= visited
        invariant Deduplicate(errors) == old(Deduplicate(errors))
               || Deduplicate(errors) == AddOnce(old(Deduplicate(errors)), DependencyCycle)
        invariant forall e :: e in old(errors) ==> e in errors
        invariant DependencyCycle in errors && DependencyCycle !in old(errors) ==> CycleBelow(graph.edges, trail[0])
        invariant DependencyCycle !in errors ==> forall j :: 0 <= j < k ==> deps[j] in visited
      {
        assert deps[k] in deps;
        assert Edge(id, DependsOn, deps[k]) in graph.edges;
        Visit(deps[k], trail);
      }
    }

    /** `len(ids) != len(set(ids))`. */
    method CheckIds()
      requires errors == []
      modifies this`errors
      ensures errors == (if UniqueIds(graph) then [] else [DuplicateIds])
    {
      DistinctByCount(NodeIds(graph));
      if |Elements(NodeIds(graph))| != |graph.nodes| {
        Report(DuplicateIds);
      }
    }

    method CheckEdges()
      requires errors == (if UniqueIds(graph) then [] else [DuplicateIds])
      modifies this`errors
      ensures Deduplicate(errors) == old(errors) + (if ClosedEdges(graph) then [] else [UnknownNode])
      ensures DependencyCycle !in errors
    {
      for k := 0 to |graph.edges|
        invariant DependencyCycle !in errors
        invariant Deduplicate(errors) == old(errors)
               + (if forall j :: 0 <= j < k ==> ClosedEdge(graph, graph.edges[j]) then [] else [UnknownNode])
      {
        if !ClosedEdge(graph, graph.edges[k]) {
          DeduplicateAppend(errors, UnknownNode);
          Report(UnknownNode);
        }
      }
    }

    /** `validate`: the reported tuple is exactly the expected one. */
    method Validate() returns (valid: bool, reported: seq<GraphError>)
      requires errors == [] && visiting == {} && visited == {} && order == []
      modifies this
      ensures reported == ExpectedErrors(graph)
      ensures valid <==> reported == []
      ensures valid <==> UniqueIds(graph) && ClosedEdges(graph) && !HasCycle(graph.edges)
    {
      CheckIds();
      CheckEdges();
      ghost var before := errors;
      for k := 0 to |graph.nodes|
        invariant Consistent() && visiting == {}
        invariant Deduplicate(errors) == Deduplicate(before)
               || Deduplicate(errors) == AddOnce(Deduplicate(before), DependencyCycle)
        invariant forall e :: e in before ==> e in errors
        invariant DependencyCycle in errors ==> DeclaredCycle(graph)
        invariant DependencyCycle !in errors ==> forall j :: 0 <= j < k ==> graph.nodes[j].id in visited
      {
        assert NodeIds(graph)[k] == graph.nodes[k].id;
        Visit(graph.nodes[k].id, []);
      }
      if DependencyCycle !in errors {
        forall root | root in NodeIds(graph) ensures !CycleBelow(graph.edges, root) {
          FinishedIsAcyclic(graph.edges, order, root);
        }
      }
      reported := Deduplicate(errors);
      DeduplicateKeeps(errors);
      valid := errors == [];
      NoErrorsMeansAcyclic(graph);
    }
  }

  datatype BuildError = DuplicateNode | UnknownEndpoint | Rejected(errors: seq<GraphError>)

  /** The builder keeps ids unique and edges closed, so a dependency cycle is the
      only thing `build` can still reject. */
  class IntentGraphBuilder<P(==)> {
    var nodes: seq<Node<P>>
    var edges: seq<Edge>

    ghost predicate Valid()
      reads this
    {
      UniqueIds(Graph(nodes, edges)) && ClosedEdges(Graph(nodes, edges))
    }

    constructor ()
      ensures Valid() && nodes == [] && edges == []
    {
      nodes, edges := [], [];
    }

    method AddNode(id: string, kind: NodeType, payload: P) returns (error: Option<BuildError>)
      requires Valid()
      modifies this`nodes
      ensures Valid()
      ensures id in old(NodeIds(Graph(nodes, edges))) ==> error == Some(DuplicateNode) && nodes == old(nodes)
      ensures id !in old(NodeIds(Graph(nodes, edges))) ==>
                error == None && nodes == old(nodes) + [Node(id, kind, payload)]
    {
      if id in NodeIds(Graph(nodes, edges)) {
        return Some(DuplicateNode);
      }
      ghost var ids := NodeIds(Graph(nodes, edges));
      nodes := nodes + [Node(id, kind, payload)];
      assert NodeIds(Graph(nodes, edges)) == ids + [id];
      error := None;
    }

    method Link(source: string, relation: Relation, target: string) returns (error: Option<BuildError>)
      requires Valid()
      modifies this`edges
      ensures Valid()
      ensures error == None <==> ClosedEdge(Graph(nodes, old(edges)), Edge(source, relation, target))
      ensures edges == if error == None then old(edges) + [Edge(source, relation, target)] else old(edges)
    {
      var e := Edge(source, relation, target);
      if !ClosedEdge(Graph(nodes, edges), e) {
        return Some(UnknownEndpoint);
      }
      ghost var before := Graph(nodes, edges);
      edges := edges + [e];
      assert NodeIds(Graph(nodes, edges)) == NodeIds(before);
      error := None;
    }

    method Build() returns (r: Result<Graph<P>, BuildError>)
      requires Valid()
      ensures r == if HasCycle(edges) then Err(Rejected([DependencyCycle])) else Ok(Graph(nodes, edges))
    {
      var g := Graph(nodes, edges);
      NoErrorsMeansAcyclic(g);
      var validator := new Validator(g);
      var valid, errors := validator.Validate();
      if valid {
        return Ok(g);
      }
      assert errors == [DependencyCycle];
      return Err(Rejected(errors));
    }
  }
}
