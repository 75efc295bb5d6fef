/** A directed graph that refuses cycles: the behaviour the deployment code expects of its graph
    library. Vertices are stack names. */
module Graphs {

  type Vertex = string
  type Edge = (Vertex, Vertex)

  /** Outcome of inserting an edge. */
  datatype EdgeResult = Inserted | VertexNotFound | EdgeAlreadyExists | EdgeCreatesCycle

  /** Outcome of a topological sort. */
  datatype SortResult = Sorted(order: seq<Vertex>) | HasCycle

  ghost predicate IsPath(edges: set<Edge>, path: seq<Vertex>) {
    |path| >= 1 && forall i :: 0 <= i < |path| - 1 ==> (path[i], path[i + 1]) in edges
  }

  /** `b` can be reached from `a` along zero or more edges. */
  ghost predicate Reaches(edges: set<Edge>, a: Vertex, b: Vertex) {
    exists path :: IsPath(edges, path) && path[0] == a && path[|path| - 1] == b
  }

  ghost predicate Acyclic(edges: set<Edge>) {
    forall path :: IsPath(edges, path) && |path| >= 2 ==> path[0] != path[|path| - 1]
  }

  ghost predicate Distinct<T>(s: seq<T>) {
    forall i, j :: 0 <= i < j < |s| ==> s[i] != s[j]
  }

  function Predecessors(edges: set<Edge>, v: Vertex): (r: set<Vertex>)
    ensures forall u :: u in r <==> (u, v) in edges
  {
    set e | e in edges && e.1 == v :: e.0
  }

  function Elements<T>(s: seq<T>): set<T> {
    set x | x in s
  }

  /** The edges from one vertex to several. */
  ghost function Star(source: Vertex, targets: set<Vertex>): (edges: set<Edge>)
    ensures forall e :: e in edges <==> e.0 == source && e.1 in targets
  {
    set t | t in targets :: (source, t)
  }

  ghost predicate EndpointsPresent(vertices: set<Vertex>, edges: set<Edge>) {
    forall e :: e in edges ==> e.0 in vertices && e.1 in vertices
  }

  /** Every edge points forward in `order`. */
  ghost predicate PointsForward(edges: set<Edge>, order: seq<Vertex>) {
    forall i, j :: 0 <= i < |order| && 0 <= j < |order| && (order[i], order[j]) in edges ==> i < j
  }

  // Paths.

  lemma ReachesSelf(edges: set<Edge>, a: Vertex)
    ensures Reaches(edges, a, a)
  {
    assert IsPath(edges, [a]);
  }

  lemma ReachesPrepend(edges: set<Edge>, a: Vertex, b: Vertex, c: Vertex)
    requires (a, b) in edges && Reaches(edges, b, c)
    ensures Reaches(edges, a, c)
  {
    var p :| IsPath(edges, p) && p[0] == b && p[|p| - 1] == c;
    var q := [a] + p;
    assert forall i :: 0 < i < |q| ==> q[i] == p[i - 1];
    assert IsPath(edges, q) && q[0] == a && q[|q| - 1] == c;
  }

  lemma SubPath(edges: set<Edge>, path: seq<Vertex>, i: nat, j: nat)
    requires IsPath(edges, path) && i <= j < |path|
    ensures IsPath(edges, path[i..j + 1])
    ensures Reaches(edges, path[i], path[j])
  {}

  lemma ReachesSubset(small: set<Edge>, large: set<Edge>, a: Vertex, b: Vertex)
    requires small <= large && Reaches(small, a, b)
    ensures Reaches(large, a, b)
  {}

  lemma ReachesBack(edges: set<Edge>, e: Edge)
    requires e in edges && Reaches(edges, e.1, e.0)
    ensures !Acyclic(edges)
  {
    var p :| IsPath(edges, p) && p[0] == e.1 && p[|p| - 1] == e.0;
    var cycle := [e.0] + p;
    assert forall i :: 0 < i < |cycle| ==> cycle[i] == p[i - 1];
    assert IsPath(edges, cycle) && cycle[0] == cycle[|cycle| - 1];
  }

  // Ranks.

  /** What a vertex leads to. */
  ghost function Below(edges: set<Edge>, vertices: set<Vertex>, v: Vertex): set<Vertex> {
    set u | u in vertices && u != v && Reaches(edges, v, u)
  }

  lemma SmallerSet<T>(a: set<T>, b: set<T>, x: T)
    requires a <= b && x in b && x !in a
    ensures |a| < |b|
  {
    assert b == (b - a) + a && x in b - a;
  }

  lemma LowerAlongEdge(edges: set<Edge>, vertices: set<Vertex>, e: Edge)
    requires Acyclic(edges) && e in edges && e.1 in vertices
    ensures |Below(edges, vertices, e.1)| < |Below(edges, vertices, e.0)|
  {
    hide Acyclic, Reaches;
    ReachesSelf(edges, e.1);
    ReachesPrepend(edges, e.0, e.1, e.1);
    if Reaches(edges, e.1, e.0) {
      ReachesBack(edges, e);
    }
    forall u | u in Below(edges, vertices, e.1)
      ensures u in Below(edges, vertices, e.0)
    {
      ReachesPrepend(edges, e.0, e.1, u);
    }
    SmallerSet(Below(edges, vertices, e.1), Below(edges, vertices, e.0), e.1);
  }

  /** Without cycles the vertices can be ranked so that every edge leads down. */
  lemma AcyclicIsRanked(edges: set<Edge>, vertices: set<Vertex>) returns (rank: Vertex -> nat)
    requires Acyclic(edges)
    ensures forall e :: e in edges && e.1 in vertices ==> rank(e.1) < rank(e.0)
    ensures forall v :: v in vertices ==> rank(v) < |vertices|
  {
    rank := v => |Below(edges, vertices, v)|;
    hide Acyclic;
    forall e | e in edges && e.1 in vertices
      ensures rank(e.1) < rank(e.0)
    {
      LowerAlongEdge(edges, vertices, e);
    }
    forall v | v in vertices
      ensures rank(v) < |vertices|
    {
      SmallerSet(Below(edges, vertices, v), vertices, v);
    }
  }

  lemma {:induction false} PathLeadsDown(edges: set<Edge>, rank: Vertex -> nat, path: seq<Vertex>)
    requires IsPath(edges, path) && |path| >= 2 && forall e :: e in edges ==> rank(e.1) < rank(e.0)
    ensures rank(path[|path| - 1]) < rank(path[0])
  {
    assert (path[0], path[1]) in edges;
    if |path| > 2 {
      SubPath(edges, path, 1, |path| - 1);
      assert path[1..] == path[1..|path| - 1 + 1];
      PathLeadsDown(edges, rank, path[1..]);
    }
  }

  /** And with such ranks there are no cycles. */
  lemma RankedIsAcyclic(edges: set<Edge>, rank: Vertex -> nat)
    requires forall e :: e in edges ==> rank(e.1) < rank(e.0)
    ensures Acyclic(edges)
  {
    forall path | IsPath(edges, path) && |path| >= 2
      ensures path[0] != path[|path| - 1]
    {
      PathLeadsDown(edges, rank, path);
    }
  }

  lemma EmptyIsAcyclic()
    ensures Acyclic({})
  {
    ForwardOrderImpliesAcyclic({}, []);
  }

  /** A path in the extended graph either avoids the new edge, or it starts with a stretch of old
      edges up to the new edge's source and ends with one from its target. */
  lemma {:induction false} SplitAtNewEdge(edges: set<Edge>, e: Edge, path: seq<Vertex>)
    requires IsPath(edges + {e}, path)
    ensures IsPath(edges, path)
         || (Reaches(edges, path[0], e.0) && Reaches(edges, e.1, path[|path| - 1]))
    decreases |path|
  {
    if |path| >= 2 {
      var rest := path[1..];
      SubPath(edges + {e}, path, 1, |path| - 1);
      assert path[1..|path| - 1 + 1] == rest;
      SplitAtNewEdge(edges, e, rest);
      if (path[0], path[1]) == e {
        ReachesSelf(edges, e.0);
        if IsPath(edges, rest) {
          SubPath(edges, rest, 0, |rest| - 1);
        }
      } else if IsPath(edges, rest) {
        forall i | 0 <= i < |path| - 1
          ensures (path[i], path[i + 1]) in edges
        {
          if i > 0 {
            assert path[i] == rest[i - 1] && path[i + 1] == rest[i];
          }
        }
      } else {
        ReachesPrepend(edges, path[0], path[1], e.0);
      }
    }
  }

  lemma ReachesConcat(edges: set<Edge>, a: Vertex, b: Vertex, c: Vertex)
    requires Reaches(edges, a, b) && Reaches(edges, b, c)
    ensures Reaches(edges, a, c)
  {
    var p :| IsPath(edges, p) && p[0] == a && p[|p| - 1] == b;
    var q :| IsPath(edges, q) && q[0] == b && q[|q| - 1] == c;
    var r := p + q[1..];
    assert forall i :: |p| - 1 <= i < |r| ==> r[i] == q[i - (|p| - 1)];
    assert IsPath(edges, r) && r[0] == a && r[|r| - 1] == c;
  }

  /** Adding an edge keeps a graph acyclic exactly when its target does not already reach its
      source. A loop on one vertex is the case of an empty path. */
  lemma AddEdgeAcyclic(edges: set<Edge>, e: Edge)
    requires Acyclic(edges)
    ensures Acyclic(edges + {e}) <==> !Reaches(edges, e.1, e.0)
  {
    if Reaches(edges, e.1, e.0) {
      ReachesSubset(edges, edges + {e}, e.1, e.0);
      ReachesBack(edges + {e}, e);
    } else {
      forall path | IsPath(edges + {e}, path) && |path| >= 2
        ensures path[0] != path[|path| - 1]
      {
        SplitAtNewEdge(edges, e, path);
        if path[0] == path[|path| - 1] && !IsPath(edges, path) {
          ReachesConcat(edges, e.1, path[0], e.0);
        }
      }
    }
  }

  // Finite sets of vertices.

  lemma {:induction false} DistinctBound<T>(s: seq<T>, universe: set<T>)
    requires Distinct(s) && forall x :: x in s ==> x in universe
    ensures |s| <= |universe|
    decreases |s|
  {
    if s != [] {
      var init := s[..|s| - 1];
      var last := s[|s| - 1];
      assert forall x :: x in init ==> x in universe - {last};
      DistinctBound(init, universe - {last});
    }
  }

  ghost predicate HasPredecessorIn(edges: set<Edge>, within: set<Vertex>, v: Vertex) {
    exists u :: u in within && (u, v) in edges
  }

  ghost predicate NoSource(edges: set<Edge>, within: set<Vertex>) {
    forall v {:trigger HasPredecessorIn(edges, within, v)} :: v in within ==> HasPredecessorIn(edges, within, v)
  }

  /** Walking backwards inside `within` from a path of distinct vertices must close a cycle. */
  lemma {:induction false} BackwardWalkCloses(edges: set<Edge>, within: set<Vertex>, path: seq<Vertex>)
    requires IsPath(edges, path) && Distinct(path) && forall v :: v in path ==> v in within
    requires NoSource(edges, within)
    ensures !Acyclic(edges)
    decreases |within| - |path|
  {
    DistinctBound(path, within);
    assert HasPredecessorIn(edges, within, path[0]);
    var u :| u in within && (u, path[0]) in edges;
    var longer := [u] + path;
    assert forall i :: 0 < i < |longer| ==> longer[i] == path[i - 1];
    assert IsPath(edges, longer);
    if u in path {
      var k :| 0 <= k < |path| && path[k] == u;
      SubPath(edges, longer, 0, k + 1);
      var cycle := longer[0..k + 2];
      assert IsPath(edges, cycle) && cycle[0] == cycle[|cycle| - 1];
    } else {
      DistinctBound(longer, within);
      BackwardWalkCloses(edges, within, longer);
    }
  }

  lemma NoSourceMeansCycle(edges: set<Edge>, within: set<Vertex>)
    requires within != {} && NoSource(edges, within)
    ensures !Acyclic(edges)
  {
    hide Acyclic;
    var v :| v in within;
    BackwardWalkCloses(edges, within, [v]);
  }

  /** A sequence of distinct vertices in which every edge points forward is the only kind of
      certificate a graph without cycles needs: such an order exists only for acyclic graphs. */
  lemma ForwardOrderImpliesAcyclic(edges: set<Edge>, order: seq<Vertex>)
    requires forall e :: e in edges ==> e.0 in order && e.1 in order
    requires PointsForward(edges, order)
    ensures Acyclic(edges)
  {
    forall path | IsPath(edges, path) && |path| >= 2
      ensures path[0] != path[|path| - 1]
    {
      assert (path[0], path[1]) in edges;
      var i :| 0 <= i < |order| && order[i] == path[0];
      PathClimbs(edges, order, path, i);
    }
  }

  lemma {:induction false} PathClimbs(edges: set<Edge>, order: seq<Vertex>, path: seq<Vertex>, at: nat)
    requires forall e :: e in edges ==> e.0 in order && e.1 in order
    requires PointsForward(edges, order)
    requires IsPath(edges, path) && |path| >= 2 && at < |order| && order[at] == path[0]
    ensures forall k :: 0 <= k <= at ==> order[k] != path[|path| - 1]
    decreases |path|
  {
    assert (path[0], path[1]) in edges;
    if |path| == 2 {
      forall k | 0 <= k <= at
        ensures order[k] != path[|path| - 1]
      {
        assert order[k] == path[1] ==> at < k;
      }
    } else {
      var next :| 0 <= next < |order| && order[next] == path[1];
      assert (order[at], order[next]) in edges;
      var rest := path[1..];
      assert forall i :: 0 <= i < |rest| ==> rest[i] == path[i + 1];
      PathClimbs(edges, order, rest, next);
    }
  }

  // The state of Kahn's algorithm between two rounds.

  /** Waiting, queued and ordered vertices partition the graph. */
  ghost predicate Partition(vertices: set<Vertex>, waiting: map<Vertex, set<Vertex>>, queue: seq<Vertex>, order: seq<Vertex>) {
    waiting.Keys !! Elements(order + queue) && waiting.Keys + Elements(order + queue) == vertices
  }

  /** A waiting vertex still has a predecessor that is not ordered. */
  ghost predicate Blocked(edges: set<Edge>, waiting: map<Vertex, set<Vertex>>, ordered: set<Vertex>) {
    forall v :: v in waiting ==> waiting[v] != {} && waiting[v] == Predecessors(edges, v) - ordered
  }

  /** Every predecessor of these vertices is ordered. */
  ghost predicate Ready(edges: set<Edge>, these: seq<Vertex>, ordered: set<Vertex>) {
    forall v :: v in these ==> Predecessors(edges, v) <= ordered
  }

  ghost predicate KahnState(vertices: set<Vertex>, edges: set<Edge>, waiting: map<Vertex, set<Vertex>>,
                            queue: seq<Vertex>, order: seq<Vertex>)
  {
    && Distinct(order + queue)
    && Partition(vertices, waiting, queue, order)
    && Blocked(edges, waiting, Elements(order))
    && Ready(edges, order + queue, Elements(order))
    && PointsForward(edges, order)
  }

  lemma KahnRoom(vertices: set<Vertex>, edges: set<Edge>, waiting: map<Vertex, set<Vertex>>,
                 queue: seq<Vertex>, order: seq<Vertex>)
    requires KahnState(vertices, edges, waiting, queue, order) && queue != []
    ensures |order| < |vertices|
    ensures Distinct(queue[1..]) && forall v :: v in waiting ==> v !in queue[1..]
  {
    var all := order + queue;
    forall x | x in all
      ensures x in vertices
    {
      assert x in Elements(all);
    }
    DistinctBound(all, vertices);
    assert all[|order|..] == queue;
  }

  lemma KahnStep(vertices: set<Vertex>, edges: set<Edge>, waiting: map<Vertex, set<Vertex>>,
                 queue: seq<Vertex>, order: seq<Vertex>, reduced: map<Vertex, set<Vertex>>,
                 waiting': map<Vertex, set<Vertex>>, queue': seq<Vertex>)
    requires KahnState(vertices, edges, waiting, queue, order) && queue != []
    requires reduced == map v | v in waiting :: waiting[v] - {queue[0]}
    requires queue[1..] <= queue' && Distinct(queue')
    requires forall v :: v in queue' <==> v in queue[1..] || (v in reduced && reduced[v] == {})
    requires waiting' == map v | v in reduced && reduced[v] != {} :: reduced[v]
    ensures KahnState(vertices, edges, waiting', queue', order + [queue[0]])
  {
    var order' := order + [queue[0]];
    assert Elements(order') == Elements(order) + {queue[0]};
    assert Blocked(edges, waiting', Elements(order')) by {
      hide Distinct, PointsForward, Partition, Ready;
    }
    assert Partition(vertices, waiting', queue', order') && Ready(edges, order' + queue', Elements(order')) by {
      hide Distinct, PointsForward;
      KahnStepPartition(vertices, edges, waiting, queue, order, reduced, waiting', queue');
    }
    assert forall v :: v in queue' && v in Elements(order + queue) ==> v in queue[1..] by {
      hide Distinct, PointsForward, Ready, Blocked;
    }
    hide Partition, Ready, Blocked;
    KahnStepDistinct(queue, order, queue', Elements(order + queue));
    KahnStepForward(edges, queue, order);
  }

  lemma KahnStepPartition(vertices: set<Vertex>, edges: set<Edge>, waiting: map<Vertex, set<Vertex>>,
                          queue: seq<Vertex>, order: seq<Vertex>, reduced: map<Vertex, set<Vertex>>,
                          waiting': map<Vertex, set<Vertex>>, queue': seq<Vertex>)
    requires queue != [] && Partition(vertices, waiting, queue, order)
    requires Blocked(edges, waiting, Elements(order)) && Ready(edges, order + queue, Elements(order))
    requires reduced == map v | v in waiting :: waiting[v] - {queue[0]}
    requires forall v :: v in queue' <==> v in queue[1..] || (v in reduced && reduced[v] == {})
    requires waiting' == map v | v in reduced && reduced[v] != {} :: reduced[v]
    ensures Partition(vertices, waiting', queue', order + [queue[0]])
    ensures Ready(edges, order + [queue[0]] + queue', Elements(order) + {queue[0]})
  {}

  lemma KahnStepForward(edges: set<Edge>, queue: seq<Vertex>, order: seq<Vertex>)
    requires queue != [] && Distinct(order + queue) && PointsForward(edges, order)
    requires forall v :: v in order + queue ==> Predecessors(edges, v) <= Elements(order)
    ensures PointsForward(edges, order + [queue[0]])
  {
    var current, before, order' := queue[0], order + queue, order + [queue[0]];
    forall k | 0 <= k < |order|
      ensures order[k] != current
    {
      assert before[k] == order[k] && before[|order|] == current;
    }
    forall i, j | 0 <= i < |order'| && 0 <= j < |order'| && (order'[i], order'[j]) in edges
      ensures i < j
    {
      assert order'[j] in before;
      assert order'[i] in Predecessors(edges, order'[j]);
      assert order'[i] in Elements(order);
    }
  }

  lemma KahnStepDistinct(queue: seq<Vertex>, order: seq<Vertex>, queue': seq<Vertex>, seen: set<Vertex>)
    requires queue != [] && Distinct(order + queue) && Distinct(queue') && seen == Elements(order + queue)
    requires queue[1..] <= queue'
    requires forall v :: v in queue' ==> v in queue[1..] || v !in seen
    ensures Distinct(order + [queue[0]] + queue')
  {
    var before, head := order + queue, order + [queue[0]];
    assert forall i :: 0 <= i < |head| ==> head[i] == before[i];
    forall i, j | 0 <= i < |head| && 0 <= j < |queue'|
      ensures head[i] != queue'[j]
    {
      assert before[i] in seen;
      if queue'[j] in queue[1..] {
        var k :| 0 <= k < |queue[1..]| && queue[1..][k] == queue'[j];
        assert before[|order| + 1 + k] == queue'[j];
      }
    }
  }

  lemma KahnInit(vertices: set<Vertex>, edges: set<Edge>, waiting: map<Vertex, set<Vertex>>,
                 waiting': map<Vertex, set<Vertex>>, queue': seq<Vertex>)
    requires waiting == map v | v in vertices :: Predecessors(edges, v)
    requires Distinct(queue')
    requires forall v :: v in queue' <==> v in waiting && waiting[v] == {}
    requires waiting' == map v | v in waiting && waiting[v] != {} :: waiting[v]
    ensures KahnState(vertices, edges, waiting', queue', [])
  {}

  /** When the queue runs dry, what still waits has a predecessor that waits too. */
  lemma WaitingHasNoSource(vertices: set<Vertex>, edges: set<Edge>, waiting: map<Vertex, set<Vertex>>, order: seq<Vertex>)
    requires EndpointsPresent(vertices, edges) && KahnState(vertices, edges, waiting, [], order)
    ensures NoSource(edges, waiting.Keys)
  {}

  lemma KahnPartition(vertices: set<Vertex>, edges: set<Edge>, waiting: map<Vertex, set<Vertex>>, order: seq<Vertex>)
    requires KahnState(vertices, edges, waiting, [], order)
    ensures Distinct(order) && PointsForward(edges, order)
    ensures waiting.Keys !! Elements(order) && waiting.Keys + Elements(order) == vertices
  {
    assert order + [] == order;
  }

  lemma KahnEnd(vertices: set<Vertex>, edges: set<Edge>, waiting: map<Vertex, set<Vertex>>, order: seq<Vertex>)
    requires EndpointsPresent(vertices, edges) && KahnState(vertices, edges, waiting, [], order)
    ensures Distinct(order) && PointsForward(edges, order)
    ensures |order| == |vertices| <==> Elements(order) == vertices
    ensures Elements(order) == vertices <==> Acyclic(edges)
  {
    hide Acyclic, KahnState, Distinct, PointsForward;
    KahnPartition(vertices, edges, waiting, order);
    CardinalityDistinct(order);
    if waiting.Keys != {} {
      WaitingHasNoSource(vertices, edges, waiting, order);
      NoSourceMeansCycle(edges, waiting.Keys);
      assert Elements(order) < vertices;
      SetStrictlySmaller(Elements(order), vertices);
    } else {
      assert forall v :: v in vertices ==> v in Elements(order);
      ForwardOrderImpliesAcyclic(edges, order);
    }
  }

  /** Moves every vertex without remaining predecessors to the end of the queue. */
  method TakeReady(queue: seq<Vertex>, predecessors: map<Vertex, set<Vertex>>)
    returns (queue': seq<Vertex>, predecessors': map<Vertex, set<Vertex>>)
    requires Distinct(queue) && forall v :: v in predecessors ==> v !in queue
    ensures queue <= queue' && Distinct(queue')
    ensures forall v :: v in queue' <==> v in queue || (v in predecessors && predecessors[v] == {})
    ensures predecessors' == map v | v in predecessors && predecessors[v] != {} :: predecessors[v]
  {
    queue', predecessors' := queue, predecessors;
    var todo := predecessors.Keys;
    while todo != {}
      invariant todo <= predecessors.Keys
      invariant queue <= queue' && Distinct(queue')
      invariant forall v :: v in queue' <==> v in queue || (v in predecessors.Keys - todo && predecessors[v] == {})
      invariant predecessors' == map v | v in predecessors && (v in todo || predecessors[v] != {}) :: predecessors[v]
      decreases |todo|
    {
      var v :| v in todo;
      todo := todo - {v};
      if predecessors[v] == {} {
        queue' := queue' + [v];
        predecessors' := predecessors' - {v};
      }
    }
  }

  /** Kahn's algorithm. It succeeds exactly on graphs without a cycle, whatever order the vertices
      are visited in, and then lists every vertex once with all edges pointing forward. */
  method TopologicalSort(vertices: set<Vertex>, edges: set<Edge>) returns (r: SortResult)
    requires EndpointsPresent(vertices, edges)
    ensures r.Sorted? <==> Acyclic(edges)
    ensures r.Sorted? ==> Distinct(r.order) && Elements(r.order) == vertices && PointsForward(edges, r.order)
  {
    hide Acyclic;
    var waiting: map<Vertex, set<Vertex>> := map v | v in vertices :: Predecessors(edges, v);
    var queue, order := [], [];
    ghost var initial := waiting;
    queue, waiting := TakeReady(queue, waiting);
    KahnInit(vertices, edges, initial, waiting, queue);
    while queue != []
      invariant KahnState(vertices, edges, waiting, queue, order)
      decreases |vertices| - |order|
    {
      ghost var waiting0, queue0, order0 := waiting, queue, order;
      KahnRoom(vertices, edges, waiting, queue, order);
      var current := queue[0];
      queue := queue[1..];
      order := order + [current];
      waiting := map v | v in waiting :: waiting[v] - {current};
      ghost var reduced := waiting;
      queue, waiting := TakeReady(queue, waiting);
      KahnStep(vertices, edges, waiting0, queue0, order0, reduced, waiting, queue);
    }
    KahnEnd(vertices, edges, waiting, order);
    if |order| != |vertices| {
      return HasCycle;
    }
    return Sorted(order);
  }

  /** The new edges have present and distinct targets, and none is there already. */
  ghost predicate Linkable(vertices: set<Vertex>, edges: set<Edge>, source: Vertex, targets: seq<Vertex>) {
    && Distinct(targets)
    && forall t :: t in targets ==> t in vertices && (source, t) !in edges
  }

  /** The `at`-th target is the first refused one, for the reason given. */
  ghost predicate Refused(vertices: set<Vertex>, edges: set<Edge>, source: Vertex, targets: seq<Vertex>, at: nat, reason: EdgeResult)
    requires at < |targets|
  {
    match reason
    case Inserted => false
    case VertexNotFound => targets[at] !in vertices
    case EdgeAlreadyExists => (source, targets[at]) in edges || targets[at] in targets[..at]
    case EdgeCreatesCycle =>
      var before := edges + Star(source, Elements(targets[..at]));
      Acyclic(before) && !Acyclic(before + {(source, targets[at])})
  }

  /** A directed graph created with the option to prevent cycles. */
  class DirectedGraph {
    var vertices: set<Vertex>
    var edges: set<Edge>

    ghost predicate Valid()
      reads this
    {
      Acyclic(edges) && EndpointsPresent(vertices, edges)
    }

    constructor ()
      ensures Valid() && vertices == {} && edges == {}
    {
      vertices, edges := {}, {};
      new;
      EmptyIsAcyclic();
    }

    /** Adds a vertex; refuses one that is already present. */
    method AddVertex(v: Vertex) returns (added: bool)
      requires Valid()
      modifies this
      ensures Valid() && edges == old(edges)
      ensures added <==> v !in old(vertices)
      ensures vertices == old(vertices) + {v}
    {
      added := v !in vertices;
      vertices := vertices + {v};
    }

    /** Adds the vertices one by one and stops at the first that is already there. */
    method AddVertices(names: seq<Vertex>) returns (refused: int)
      requires Valid() && vertices == {}
      modifies this
      ensures Valid() && edges == old(edges)
      ensures -1 <= refused < |names|
      ensures refused < 0 ==> Distinct(names) && vertices == Elements(names)
      ensures refused >= 0 ==> names[refused] in names[..refused]
    {
      for i := 0 to |names|
        invariant Valid() && edges == old(edges)
        invariant Distinct(names[..i]) && vertices == Elements(names[..i])
      {
        var added := AddVertex(names[i]);
        assert names[..i + 1] == names[..i] + [names[i]];
        if !added {
          return i;
        }
      }
      assert names[..|names|] == names;
      return -1;
    }

    /** Links `source` to each target in turn and stops at the first refused edge. */
    method AddEdges(source: Vertex, targets: seq<Vertex>) returns (r: EdgeResult, at: nat)
      requires Valid() && source in vertices
      modifies this
      ensures Valid() && vertices == old(vertices)
      ensures r.Inserted? ==> Linkable(vertices, old(edges), source, targets)
      ensures r.Inserted? ==> edges == old(edges) + Star(source, Elements(targets))
      ensures !r.Inserted? ==> at < |targets| && Refused(vertices, old(edges), source, targets, at, r)
    {
      hide Acyclic;
      at := 0;
      while at < |targets|
        invariant at <= |targets| && Valid() && vertices == old(vertices)
        invariant Linkable(vertices, old(edges), source, targets[..at])
        invariant edges == old(edges) + Star(source, Elements(targets[..at]))
      {
        r := AddEdge(source, targets[at]);
        assert targets[..at + 1] == targets[..at] + [targets[at]];
        assert Elements(targets[..at + 1]) == Elements(targets[..at]) + {targets[at]};
        assert Star(source, Elements(targets[..at + 1])) == Star(source, Elements(targets[..at])) + {(source, targets[at])};
        if !r.Inserted? {
          return;
        }
        at := at + 1;
      }
      assert targets[..|targets|] == targets;
      return Inserted, at;
    }

    /** Depth-first search over predecessors, from `source`, looking for `target`. */
    method CreatesCycle(source: Vertex, target: Vertex) returns (found: bool)
      requires Valid() && source in vertices
      ensures found <==> Reaches(edges, target, source)
    {
      if source == target {
        ReachesSelf(edges, source);
        return true;
      }
      var stack, visited := [source], {};
      ReachesSelf(edges, source);
      while stack != []
        invariant forall v :: v in stack ==> v in vertices && Reaches(edges, v, source)
        invariant visited <= vertices && target !in visited
        invariant source in stack || source in visited
        invariant forall u, v :: v in visited && (u, v) in edges ==> u in visited || u in stack
        decreases |vertices - visited|, |stack|
      {
        ghost var before := stack;
        var current := stack[|stack| - 1];
        stack := stack[..|stack| - 1];
        assert forall v :: v in before ==> v == current || v in stack;
        if current in visited {
          continue;
        }
        if current == target {
          return true;
        }
        assert vertices - (visited + {current}) < vertices - visited;
        SetStrictlySmaller(vertices - (visited + {current}), vertices - visited);
        visited := visited + {current};
        stack := PushPredecessors(stack, current, source);
      }
      ghost var seen := visited;
      if Reaches(edges, target, source) {
        var p :| IsPath(edges, p) && p[0] == target && p[|p| - 1] == source;
        ClosedBackwards(edges, seen, p);
      }
      return false;
    }

    /** Pushes every predecessor of `current`, in whatever order the map yields them. */
    method PushPredecessors(stack: seq<Vertex>, current: Vertex, ghost source: Vertex) returns (pushed: seq<Vertex>)
      requires Valid() && Reaches(edges, current, source)
      requires forall v :: v in stack ==> v in vertices && Reaches(edges, v, source)
      ensures forall v :: v in pushed ==> v in vertices && Reaches(edges, v, source)
      ensures forall v :: v in pushed <==> v in stack || (v, current) in edges
    {
      pushed := stack;
      var predecessors := Predecessors(edges, current);
      var todo := predecessors;
      while todo != {}
        invariant todo <= predecessors
        invariant forall v :: v in pushed ==> v in vertices && Reaches(edges, v, source)
        invariant forall v :: v in pushed <==> v in stack || v in predecessors - todo
        decreases |todo|
      {
        var u :| u in todo;
        ReachesPrepend(edges, u, current, source);
        pushed := pushed + [u];
        todo := todo - {u};
      }
    }

    /** Inserts an edge, refusing a missing endpoint, a repeated edge and an edge that would close a
        cycle, in that order. A refused edge leaves the graph as it was. */
    method AddEdge(source: Vertex, target: Vertex) returns (r: EdgeResult)
      requires Valid()
      modifies this
      ensures Valid() && vertices == old(vertices)
      ensures r.VertexNotFound? <==> source !in vertices || target !in vertices
      ensures r.EdgeAlreadyExists? <==> source in vertices && target in vertices && (source, target) in old(edges)
      ensures r.EdgeCreatesCycle? <==> (source in vertices && target in vertices && (source, target) !in old(edges)
                                        && !Acyclic(old(edges) + {(source, target)}))
      ensures edges == if r.Inserted? then old(edges) + {(source, target)} else old(edges)
    {
      if source !in vertices || target !in vertices {
        return VertexNotFound;
      }
      if (source, target) in edges {
        return EdgeAlreadyExists;
      }
      var cycle := CreatesCycle(source, target);
      AddEdgeAcyclic(edges, (source, target));
      if cycle {
        return EdgeCreatesCycle;
      }
      edges := edges + {(source, target)};
      return Inserted;
    }
  }

  lemma SetStrictlySmaller<T>(a: set<T>, b: set<T>)
    requires a < b
    ensures |a| < |b|
  {
    assert !(b <= a);
    var x :| x in b && x !in a;
    assert a <= b - {x};
    SubsetCardinality(a, b - {x});
  }

  lemma {:induction false} SubsetCardinality<T>(a: set<T>, b: set<T>)
    requires a <= b
    ensures |a| <= |b|
    decreases |a|
  {
    if a != {} {
      var x :| x in a;
      SubsetCardinality(a - {x}, b - {x});
    }
  }

  lemma {:induction false} CardinalityDistinct<T>(s: seq<T>)
    ensures |Elements(s)| <= |s|
    ensures |Elements(s)| == |s| <==> Distinct(s)
  {
    if s != [] {
      var init, last := s[..|s| - 1], s[|s| - 1];
      CardinalityDistinct(init);
      assert Elements(s) == Elements(init) + {last};
      if last in init {
        assert Elements(s) == Elements(init);
      }
    }
  }

  lemma {:induction false} ClosedBackwards(edges: set<Edge>, closed: set<Vertex>, path: seq<Vertex>)
    requires IsPath(edges, path) && path[|path| - 1] in closed
    requires forall u, v :: v in closed && (u, v) in edges ==> u in closed
    ensures path[0] in closed
    decreases |path|
  {
    if |path| >= 2 {
      var rest := path[1..];
      assert forall i :: 0 <= i < |rest| ==> rest[i] == path[i + 1];
      ClosedBackwards(edges, closed, rest);
      assert (path[0], path[1]) in edges;
    }
  }
}
