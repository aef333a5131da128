/** Bounded graph search (src/context/graph.ts). */
module ActivityGraph {
  import opened Prelude
  import opened GraphModel
  import opened GraphLemmas

  // ---- New nodes ----

  lemma DistanceIsLeast(g: Graph, q: Query, id: Id, k: nat, d: nat)
    requires Distance(g, q, id, k) && Within(g, q, id, d)
    ensures k <= d
  {
    if d < k {
      WithinGrows(g, q, id, d, k - 1);
    }
  }

  /** A node one hop from a complete layer that has been expanded is in the queue. */
  lemma NextLayer(g: Graph, q: Query, st: State, i: nat, d: nat, u: Id, v: Id)
    requires NodesOk(g, q, st) && ExpandedBefore(g, q, st, i) && d < q.hops
    requires forall a :: i <= a < |st.nodes| ==> d < st.nodes[a].depth
    requires Within(g, q, u, d) && st.Seen(u) && Hop(g, q, u, v)
    ensures st.Seen(v)
  {
    var a := SeenAt(st, u);
    assert NodeOk(g, q, st.nodes[a]);
    DistanceIsLeast(g, q, u, st.nodes[a].depth, d);
    assert Expanded(g, q, st, u);
    var e :| HopVia(g, q, u, v, e);
  }

  /** The queue below depth d has been expanded, so all nodes within d hops are in it. */
  lemma {:induction false} LayersComplete(g: Graph, q: Query, st: State, i: nat, d: nat, v: Id)
    requires NodesOk(g, q, st) && ExpandedBefore(g, q, st, i) && SeedsSeen(g, q, st) && d <= q.hops
    requires forall a :: i <= a < |st.nodes| ==> d <= st.nodes[a].depth
    requires Within(g, q, v, d)
    ensures st.Seen(v)
    decreases d
  {
    if d > 0 {
      if Within(g, q, v, d - 1) {
        LayersComplete(g, q, st, i, d - 1, v);
      } else {
        var u :| Within(g, q, u, d - 1) && Hop(g, q, u, v);
        LayersComplete(g, q, st, i, d - 1, u);
        NextLayer(g, q, st, i, d - 1, u, v);
      }
    }
  }

  /** A node met for the first time while the node at i is expanded is exactly one level deeper. */
  lemma NewNodeDistance(g: Graph, q: Query, st: State, i: nat, v: Id)
    requires NodesOk(g, q, st) && Layered(st) && SeedsSeen(g, q, st) && ExpandedBefore(g, q, st, i)
    requires i < |st.nodes| && st.nodes[i].depth < q.hops
    requires Hop(g, q, st.nodes[i].id, v) && !st.Seen(v)
    ensures Distance(g, q, v, st.nodes[i].depth + 1)
  {
    var d := st.nodes[i].depth;
    assert st.nodes[i] in st.nodes && NodeOk(g, q, st.nodes[i]);
    assert NextTo(g, q, v, d);
    if Within(g, q, v, d) {
      LayersComplete(g, q, st, i, d, v);
    }
  }

  /** The node joins the queue and the response, unless a cap forbids it. */
  method Add(q: Query, st: State, n: Node) returns (next: State, ok: bool)
    ensures ok && st.Seen(n.id) ==> next == st
    ensures ok && !st.Seen(n.id) ==>
      && next == st.(nodes := st.nodes + [n]) && |next.nodes| <= q.maxNodes && |next.nodes| <= q.maxVisited
      && q.cost(next) + 256 <= q.cap
    ensures !ok ==> next.Partial() && next.(truncatedBy := st.truncatedBy) == st
    ensures !ok && !st.Partial() && |st.nodes| <= q.maxNodes && |st.nodes| <= q.maxVisited ==> CutsOk(q, next)
  {
    if st.Seen(n.id) {
      return st, true;
    }
    if |st.nodes| >= q.maxVisited {
      return st.Stop(VisitedNodes), false;
    }
    if |st.nodes| >= q.maxNodes {
      return st.Stop(ReturnedNodes), false;
    }
    var pushed := st.(nodes := st.nodes + [n]);
    if q.cost(pushed) + 256 > q.cap {
      assert OneMore(st.Stop(ResponseBytes), pushed);
      return st.Stop(ResponseBytes), false;
    }
    return pushed, true;
  }

  lemma NewNeighbourOk(g: Graph, q: Query, st: State, i: nat, n: Node)
    requires Kept(g, q, st) && Progress(g, q, st, i) && NewNeighbour(g, q, st, i, n)
    ensures NodeOk(g, q, n) && st.nodes[|st.nodes| - 1].depth <= n.depth
  {
    NewNodeDistance(g, q, st, i, n.id);
    LastDepth(st, i);
  }

  /** It joins the queue. */
  lemma NeighbourKept(g: Graph, q: Query, st: State, i: nat, n: Node)
    requires Kept(g, q, st) && Progress(g, q, st, i) && NewNeighbour(g, q, st, i, n) && !st.Partial()
    requires |st.nodes| + 1 <= q.maxNodes && |st.nodes| + 1 <= q.maxVisited
    ensures Kept(g, q, WithNode(st, i, n)) && Extends(st, WithNode(st, i, n))
  {
    var next := WithNode(st, i, n);
    NewNeighbourOk(g, q, st, i, n);
    PushKept(g, q, st, next, n);
    ParentsExtend(g, q, st, next, n, i);
  }

  /** The end the edge leads to joins the queue, if it is not there. */
  method AddEnd(g: Graph, q: Query, st: State, i: nat, n: Node) returns (next: State, ok: bool)
    requires Kept(g, q, st) && Progress(g, q, st, i) && i < |st.nodes| && !st.Partial()
    requires st.Seen(n.id) || NewNeighbour(g, q, st, i, n)
    ensures Kept(g, q, next) && Extends(st, next)
    ensures ok ==> Progress(g, q, next, i) && next.Seen(n.id) && next.(nodes := st.nodes, parents := st.parents) == st
    ensures !ok ==> next.Partial()
  {
    if st.Seen(n.id) {
      return st, true;
    }
    var withParent := st.(parents := st.parents[n.id := st.nodes[i].id]);
    assert !withParent.Seen(n.id);
    next, ok := Add(q, withParent, n);
    if ok {
      assert next == WithNode(st, i, n);
      NeighbourKept(g, q, st, i, n);
      NeighbourProgress(g, q, st, i, n);
      SeenAfterPush(withParent, n, n.id);
    } else {
      UnseenParent(g, q, st, next, n.id, st.nodes[i].id);
      SameNodesAndEdges(g, q, st, next);
    }
  }

  /** One round of the inner loop. */
  method ExamineRow(g: Graph, q: Query, st: State, i: nat, column: Column, e: Edge) returns (next: State, go: bool)
    requires WellFormed(g) && Kept(g, q, st) && Progress(g, q, st, i) && !st.Partial()
    requires i < |st.nodes| && st.nodes[i].depth < q.hops && st.examined < q.maxEdges
    requires e in g.edges && column in Columns(q.direction) && EndAt(e, column) == st.nodes[i].id
    ensures Kept(g, q, next) && Extends(st, next)
    ensures go ==> Progress(g, q, next, i) && !next.Partial() && next.examined == st.examined + 1
    ensures go ==> Handled(g, q, next, st.nodes[i].id, e)
    ensures !go ==> next.Partial()
  {
    var current := st.nodes[i];
    next := st.(examined := st.examined + 1);
    CountersKept(g, q, st, next);
    SameNodesProgress(g, q, st, next, i);
    if e.id in next.seenEdges {
      SeenEdgeHandled(g, q, next, current.id, e);
      return next, true;
    }
    var nextId := OtherEnd(e, current.id);
    if !Allowed(g, q, e) || !NodeVisible(g, nextId) {
      return next, true;
    }
    HopByEdge(g, q, current.id, e, column);
    var counted := next;
    next, go := AddEnd(g, q, counted, i, Node(nextId, g.nodes[nextId], current.depth + 1));
    if go {
      assert current in counted.nodes;
      EdgeInReach(g, q, counted, i, column, e);
      next, go := AddEdge(g, q, next, i, e);
    }
  }

  /** An edge found from a node that is being expanded is in reach. */
  lemma EdgeInReach(g: Graph, q: Query, st: State, i: nat, column: Column, e: Edge)
    requires NodesOk(g, q, st) && i < |st.nodes| && st.nodes[i].depth < q.hops
    requires e in g.edges && column in Columns(q.direction) && EndAt(e, column) == st.nodes[i].id
    requires Allowed(g, q, e) && NodeVisible(g, OtherEnd(e, st.nodes[i].id))
    ensures InReach(g, q, e)
  {
    var u := st.nodes[i];
    assert u in st.nodes && NodeOk(g, q, u);
    WithinGrows(g, q, u.id, u.depth, q.hops - 1);
    assert ReachedFrom(g, q, u.id, OtherEnd(e, u.id), e);
  }

  /** The edge joins the response, unless the response grows too large. */
  method AddEdge(g: Graph, q: Query, st: State, i: nat, e: Edge) returns (next: State, go: bool)
    requires Kept(g, q, st) && Progress(g, q, st, i) && !st.Partial()
    requires e in g.edges && Allowed(g, q, e) && st.Seen(e.source) && st.Seen(e.target) && |st.edges| < st.examined
    requires e.id !in st.seenEdges && InReach(g, q, e)
    ensures Kept(g, q, next) && Extends(st, next)
    ensures go ==> Progress(g, q, next, i) && !next.Partial() && next.examined == st.examined && next.edges == st.edges + [e]
    ensures go ==> q.cost(st.(edges := st.edges + [e])) + 256 <= q.cap
    ensures !go ==> next.Partial()
  {
    var pushed := st.(edges := st.edges + [e]);
    if q.cost(pushed) + 256 > q.cap {
      next, go := st.Stop(ResponseBytes), false;
      assert OneMore(next, pushed);
      CountersKept(g, q, st, next);
    } else {
      next, go := pushed.(seenEdges := pushed.seenEdges + {e.id}), true;
      EdgeKept(g, q, st, next, e);
      SameNodesProgress(g, q, st, next, i);
    }
  }

  /** One column of the current node. The wall clock may stop the search at any row. */
  method ExamineColumn(g: Graph, q: Query, st: State, i: nat, column: Column) returns (next: State, go: bool)
    requires WellFormed(g) && Kept(g, q, st) && Progress(g, q, st, i) && !st.Partial()
    requires i < |st.nodes| && st.nodes[i].depth < q.hops && column in Columns(q.direction)
    ensures Kept(g, q, next) && Extends(st, next)
    ensures go ==> Progress(g, q, next, i) && !next.Partial() && ColumnHandled(g, q, next, st.nodes[i].id, column)
    ensures !go ==> next.Partial()
  {
    next := st;
    var u := st.nodes[i].id;
    var n := q.maxEdges - st.examined + 1;
    var rows := RowsAt(g.edges, column, u, n);
    for k := 0 to |rows|
      invariant Kept(g, q, next) && Progress(g, q, next, i) && !next.Partial() && Extends(st, next)
      invariant next.examined == st.examined + k
      invariant RowsHandled(g, q, next, u, rows, k)
    {
      var late: bool := *;
      if late || next.examined >= q.maxEdges {
        var stopped := next.Stop(if late then WallTime else ExaminedEdges);
        CountersKept(g, q, next, stopped);
        return stopped, false;
      }
      assert rows[k] in rows;
      var after;
      after, go := ExamineRow(g, q, next, i, column, rows[k]);
      if !go {
        return after, false;
      }
      RowsHandledExtends(g, q, next, after, u, rows, k);
      next := after;
    }
    ColumnDone(g, q, next, u, column, n);
    go := true;
  }

  /** One round over the columns: the wall clock, then the column. */
  method ExpandColumn(g: Graph, q: Query, st: State, i: nat, k: nat) returns (next: State, go: bool)
    requires WellFormed(g) && Kept(g, q, st) && Progress(g, q, st, i) && !st.Partial()
    requires i < |st.nodes| && st.nodes[i].depth < q.hops && k < |Columns(q.direction)|
    requires ColumnsHandled(g, q, st, st.nodes[i].id, Columns(q.direction), k)
    ensures Kept(g, q, next) && Extends(st, next)
    ensures go ==> Progress(g, q, next, i) && !next.Partial()
    ensures go ==> ColumnsHandled(g, q, next, st.nodes[i].id, Columns(q.direction), k + 1)
    ensures !go ==> next.Partial()
  {
    var late: bool := *;
    if late {
      next, go := st.Stop(WallTime), false;
      CountersKept(g, q, st, next);
      return;
    }
    var columns := Columns(q.direction);
    next, go := ExamineColumn(g, q, st, i, columns[k]);
    if go {
      NextColumn(g, q, st, next, st.nodes[i].id, columns, k);
    }
  }

  /** All the columns of the current node. */
  method ExpandNode(g: Graph, q: Query, st: State, i: nat) returns (next: State, go: bool)
    requires WellFormed(g) && Kept(g, q, st) && Progress(g, q, st, i) && !st.Partial()
    requires i < |st.nodes| && st.nodes[i].depth < q.hops
    ensures Kept(g, q, next) && Extends(st, next)
    ensures go ==> Progress(g, q, next, i + 1) && !next.Partial()
    ensures !go ==> next.Partial()
  {
    next, go := st, true;
    ghost var u := st.nodes[i].id;
    var k := 0;
    while go && k < |Columns(q.direction)|
      invariant k <= |Columns(q.direction)| && Kept(g, q, next) && Extends(st, next)
      invariant i < |next.nodes| && next.nodes[i] == st.nodes[i]
      invariant go ==> Progress(g, q, next, i) && !next.Partial()
      invariant go ==> ColumnsHandled(g, q, next, u, Columns(q.direction), k)
      invariant !go ==> next.Partial()
      decreases |Columns(q.direction)| - k
    {
      next, go := ExpandColumn(g, q, next, i, k);
      k := k + 1;
    }
    if go {
      ColumnsExpand(g, q, next, u);
      NextIndex(g, q, next, i);
    }
  }

  /** The traversal: node after node of the queue, until the target, a cap, or the end. */
  method Traverse(g: Graph, q: Query, target: Option<Id>, start: State) returns (st: State, found: bool)
    requires WellFormed(g) && Kept(g, q, start) && (!start.Partial() ==> Progress(g, q, start, 0))
    ensures Kept(g, q, st) && (start.Partial() ==> st.Partial())
    ensures !st.Partial() && !found ==> Progress(g, q, st, |st.nodes|)
    ensures !st.Partial() && !found && target.Some? ==> !st.Seen(target.value)
    ensures found ==> target.Some? && st.Seen(target.value) && !st.Partial()
  {
    st, found := start, false;
    var index := 0;
    while index < |st.nodes| && !st.Partial()
      invariant Kept(g, q, st) && (!st.Partial() ==> Progress(g, q, st, index))
      invariant start.Partial() ==> st.Partial()
      invariant index <= |st.nodes| && forall a :: 0 <= a < index ==> target != Some(st.nodes[a].id)
      decreases !st.Partial(), q.maxNodes - index
    {
      assert |st.nodes| <= q.maxNodes;
      var current := st.nodes[index];
      if target == Some(current.id) {
        assert current in st.nodes;
        return st, true;
      }
      if current.depth >= q.hops {
        NextIndex(g, q, st, index);
        index := index + 1;
        continue;
      }
      var go;
      st, go := ExpandNode(g, q, st, index);
      if !go {
        break;
      }
      index := index + 1;
    }
  }

  /** Following the parent links from the target back to a seed. */
  method PathTo(g: Graph, q: Query, st: State, target: Id, ghost at: nat) returns (path: seq<Id>)
    requires Kept(g, q, st) && at < |st.nodes| && st.nodes[at].id == target
    ensures IsPath(g, q, path) && path[|path| - 1] == target
    ensures |path| == st.nodes[at].depth + 1
  {
    path := [target];
    var node := target;
    ghost var p: nat := at;
    while node in st.parents
      invariant IsTail(g, q, path, target)
      invariant p < |st.nodes| && st.nodes[p].id == node == path[0]
      invariant |path| + st.nodes[p].depth == st.nodes[at].depth + 1
      decreases st.nodes[p].depth
    {
      assert st.nodes[p] in st.nodes;
      ghost var parent: nat :| ParentAt(g, q, st, st.nodes[p], parent);
      node := st.parents[node];
      PrependHop(g, q, node, path, target);
      path := [node] + path;
      p := parent;
    }
    assert st.nodes[p] in st.nodes && NodeOk(g, q, st.nodes[p]);
    assert st.nodes[p].depth == 0;
  }

  /** The seeds, in the order of the refs. */
  method AddSeeds(g: Graph, q: Query) returns (st: State, ok: bool)
    ensures ok ==> Kept(g, q, st) && (!st.Partial() ==> Progress(g, q, st, 0) && forall ref <- q.refs :: Resolve(g, ref).Some?)
    ensures !ok ==> exists ref <- q.refs :: Resolve(g, ref).None?
  {
    st, ok := Initial, true;
    for k := 0 to |q.refs|
      invariant Kept(g, q, st) && st.parents == map[] && DepthsUpTo(st, 0) && !st.Partial()
      invariant forall j :: 0 <= j < k ==> Resolve(g, q.refs[j]).Some? && st.Seen(Resolve(g, q.refs[j]).value)
    {
      var seed := Resolve(g, q.refs[k]);
      if seed.None? {
        return st, false;
      }
      var n := Node(seed.value, g.nodes[seed.value], 0);
      var before := st;
      var added;
      st, added := Add(q, before, n);
      if !added {
        CountersKept(g, q, before, st);
        return;
      }
      if !before.Seen(n.id) {
        SeedKept(g, q, before, n);
        SeenAfterPush(before, n, n.id);
        forall id ensures before.Seen(id) ==> st.Seen(id) {
          SeenAfterPush(before, n, id);
        }
      }
    }
  }

  method ShortestPath(g: Graph, q: Query, st: State, target: Id) returns (path: seq<Id>)
    requires Kept(g, q, st) && st.Seen(target)
    ensures IsPath(g, q, path) && path[|path| - 1] == target
    ensures |path| <= q.hops + 1 && Distance(g, q, target, |path| - 1)
  {
    ghost var at := SeenAt(st, target);
    path := PathTo(g, q, st, target, at);
    assert NodeOk(g, q, st.nodes[at]);
  }

  /** The path is reported when one was asked for and the target was found. */
  method Respond(g: Graph, q: Query, target: Option<Id>, st: State, found: bool) returns (response: State)
    requires Kept(g, q, st) && (found ==> target.Some? && st.Seen(target.value)) && (found ==> !st.Partial())
    requires !st.Partial() && !found ==> Progress(g, q, st, |st.nodes|)
    ensures Kept(g, q, response) && response.(path := st.path) == st
    ensures !st.Partial() && !found ==> Progress(g, q, response, |response.nodes|)
    ensures response.path != [] <==> found && q.wantsPath
    ensures response.path != [] ==>
      var path := response.path;
      target == Some(path[|path| - 1]) && IsPath(g, q, path) && |path| <= q.hops + 1 && Distance(g, q, path[|path| - 1], |path| - 1)
  {
    response := st.(path := []);
    if found && q.wantsPath {
      var path := ShortestPath(g, q, st, target.value);
      response := st.(path := path);
    }
    CountersKept(g, q, st, response);
    if !st.Partial() && !found {
      SameNodesProgress(g, q, st, response, |st.nodes|);
    }
  }

  /** An uncut search finds its target exactly when it is within max_hops. */
  lemma TargetSeen(g: Graph, q: Query, st: State, target: Id, found: bool)
    requires Kept(g, q, st) && (found ==> st.Seen(target)) && (!found ==> Progress(g, q, st, |st.nodes|) && !st.Seen(target))
    ensures found <==> Within(g, q, target, q.hops)
  {
    if found {
      var a := SeenAt(st, target);
      assert NodeOk(g, q, st.nodes[a]);
      WithinGrows(g, q, target, st.nodes[a].depth, q.hops);
    } else {
      SearchIsExact(g, q, st, target);
    }
  }

  /** What the response to a search for this target is. */
  ghost predicate ResponseOk(g: Graph, q: Query, target: Option<Id>, st: State) {
    && Kept(g, q, st)
    && (!st.Partial() && (target.None? || (q.wantsPath && st.path == [])) ==> Progress(g, q, st, |st.nodes|))
    && (!st.Partial() && q.wantsPath && target.Some? ==> (st.path != [] <==> Within(g, q, target.value, q.hops)))
    && (st.path != [] ==>
          && target == Some(st.path[|st.path| - 1]) && q.wantsPath && IsPath(g, q, st.path) && |st.path| <= q.hops + 1
          && Distance(g, q, st.path[|st.path| - 1], |st.path| - 1))
  }

  method SearchFrom(g: Graph, q: Query, target: Option<Id>, start: State) returns (response: State)
    requires WellFormed(g) && Kept(g, q, start) && (!start.Partial() ==> Progress(g, q, start, 0))
    ensures ResponseOk(g, q, target, response) && (start.Partial() ==> response.Partial())
  {
    var st, found := Traverse(g, q, target, start);
    response := Respond(g, q, target, st, found);
    if target.Some? && !st.Partial() {
      TargetSeen(g, q, st, target.value, found);
    }
  }

  /** The response is what the search found, or the whole query is refused: out of bounds, for a ref that does not resolve,
      or because the response is too large in the end. */
  method QueryActivityGraph(g: Graph, q: Query) returns (result: Result)
    requires WellFormed(g)
    ensures
      var target := if q.target.Some? then Resolve(g, q.target.value) else None;
      match result
      case Answered(st) =>
        && ResponseOk(g, q, target, st) && q.cost(st) <= q.cap
        && q.InBounds() && (q.target.Some? ==> target.Some?)
        && (!st.Partial() ==> forall ref <- q.refs :: Resolve(g, ref).Some?)
      case Refused(RefNotFound) => (q.target.Some? && target.None?) || exists ref <- q.refs :: Resolve(g, ref).None?
      case Refused(BudgetExceeded) => !q.InBounds() || exists st :: ResponseOk(g, q, target, st) && q.cost(st) > q.cap
  {
    if !q.InBounds() {
      return Refused(BudgetExceeded);
    }
    var target := if q.target.Some? then Resolve(g, q.target.value) else None;
    if q.target.Some? && target.None? {
      return Refused(RefNotFound);
    }
    var start, ok := AddSeeds(g, q);
    if !ok {
      return Refused(RefNotFound);
    }
    var response := SearchFrom(g, q, target, start);
    if q.cost(response) > q.cap {
      return Refused(BudgetExceeded);
    }
    result := Answered(response);
  }

  // ---- What a response means ----

  /** Every returned node stands at its true distance from the seeds, at most max_hops, even when the search was cut off. */
  lemma DepthsAreDistances(g: Graph, q: Query, st: State, n: Node)
    requires Kept(g, q, st) && n in st.nodes
    ensures NodeVisible(g, n.id) && n.depth <= q.hops
    ensures forall k: nat :: Within(g, q, n.id, k) <==> n.depth <= k
  {
    assert NodeOk(g, q, n);
    forall k: nat ensures Within(g, q, n.id, k) <==> n.depth <= k {
      if n.depth <= k {
        WithinGrows(g, q, n.id, n.depth, k);
      } else if Within(g, q, n.id, k) {
        DistanceIsLeast(g, q, n.id, n.depth, k);
      }
    }
  }

  /** An uncut search without a target returns exactly the nodes within max_hops of a seed. */
  lemma SearchIsExact(g: Graph, q: Query, st: State, id: Id)
    requires Kept(g, q, st) && Progress(g, q, st, |st.nodes|)
    ensures st.Seen(id) <==> Within(g, q, id, q.hops)
  {
    if st.Seen(id) {
      var a := SeenAt(st, id);
      DepthsAreDistances(g, q, st, st.nodes[a]);
    }
    if Within(g, q, id, q.hops) {
      LayersComplete(g, q, st, |st.nodes|, q.hops, id);
    }
  }

  /** It returns exactly the edges that lead from a node within max_hops - 1 to a visible node. */
  lemma EdgesAreExact(g: Graph, q: Query, st: State, e: Edge)
    requires Kept(g, q, st) && Progress(g, q, st, |st.nodes|)
    ensures e in st.edges <==> q.hops > 0 && exists u, v :: HopVia(g, q, u, v, e) && Within(g, q, u, q.hops - 1)
  {
    InReachMeans(g, q, e);
    if InReach(g, q, e) {
      var u, v :| ReachedFrom(g, q, u, v, e);
      EdgeIsReturned(g, q, st, u, v, e);
    }
  }

  lemma InReachMeans(g: Graph, q: Query, e: Edge)
    ensures InReach(g, q, e) <==> q.hops > 0 && exists u, v :: HopVia(g, q, u, v, e) && Within(g, q, u, q.hops - 1)
  {
    if q.hops > 0 && exists u, v :: HopVia(g, q, u, v, e) && Within(g, q, u, q.hops - 1) {
      var u, v :| HopVia(g, q, u, v, e) && Within(g, q, u, q.hops - 1);
      assert ReachedFrom(g, q, u, v, e);
    }
    if InReach(g, q, e) {
      var u, v :| ReachedFrom(g, q, u, v, e);
    }
  }

  lemma EdgeIsReturned(g: Graph, q: Query, st: State, u: Id, v: Id, e: Edge)
    requires Kept(g, q, st) && Progress(g, q, st, |st.nodes|) && q.hops > 0
    requires ReachedFrom(g, q, u, v, e)
    ensures e in st.edges
  {
    WithinGrows(g, q, u, q.hops - 1, q.hops);
    SearchIsExact(g, q, st, u);
    NearIsExpanded(g, q, st, u);
  }

  /** A node near enough to go on from has been expanded. */
  lemma NearIsExpanded(g: Graph, q: Query, st: State, u: Id)
    requires NodesOk(g, q, st) && ExpandedBefore(g, q, st, |st.nodes|) && q.hops > 0
    requires st.Seen(u) && Within(g, q, u, q.hops - 1)
    ensures Expanded(g, q, st, u)
  {
    var a := SeenAt(st, u);
    assert NodeOk(g, q, st.nodes[a]);
    DistanceIsLeast(g, q, u, st.nodes[a].depth, q.hops - 1);
    assert Expanded(g, q, st, st.nodes[a].id);
  }

  /** A hop in the fields of an edge. */
  lemma HopMeans(g: Graph, q: Query, u: Id, v: Id)
    ensures Hop(g, q, u, v) <==>
      exists e :: && e in g.edges && g.visible(e.evidence) && v in g.nodes && g.visible(g.nodes[v])
        && (q.relations.None? || e.relation in q.relations.value)
        && ((!q.direction.In? && e.source == u && e.target == v) || (!q.direction.Out? && e.target == u && e.source == v))
  {
    forall e: Edge
      ensures HopVia(g, q, u, v, e) <==>
        && e in g.edges && g.visible(e.evidence) && v in g.nodes && g.visible(g.nodes[v])
        && (q.relations.None? || e.relation in q.relations.value)
        && ((!q.direction.In? && e.source == u && e.target == v) || (!q.direction.Out? && e.target == u && e.source == v))
    {
      HopViaMeans(g, q, u, v, e);
    }
  }

  /** Even a cut-off response is sound: its caps hold, every node that is no seed hangs below a returned node one level
      up, and both ends of every returned edge are returned. */
  lemma CutOffIsSound(g: Graph, q: Query, st: State)
    requires Kept(g, q, st)
    ensures |st.nodes| <= q.maxNodes && |st.nodes| <= q.maxVisited && |st.edges| <= st.examined <= q.maxEdges
    ensures forall n <- st.nodes :: n.depth > 0 ==> exists p <- st.nodes :: p.depth + 1 == n.depth && Hop(g, q, p.id, n.id)
    ensures forall n <- st.nodes :: n.depth == 0 ==> IsSeed(g, q, n.id)
    ensures forall e <- st.edges :: e in g.edges && Allowed(g, q, e) && st.Seen(e.source) && st.Seen(e.target)
    ensures forall i, j :: 0 <= i < j < |st.edges| ==> st.edges[i] != st.edges[j]
    ensures forall i, j :: 0 <= i < j < |st.nodes| ==> st.nodes[i].id != st.nodes[j].id
    ensures (ReturnedNodes in st.truncatedBy ==> |st.nodes| == q.maxNodes) && (VisitedNodes in st.truncatedBy ==> |st.nodes| == q.maxVisited)
    ensures ExaminedEdges in st.truncatedBy ==> st.examined == q.maxEdges
    ensures ResponseBytes in st.truncatedBy ==> exists bigger :: OneMore(st, bigger) && q.cost(bigger) + 256 > q.cap
  {
    forall n | n in st.nodes && n.depth > 0
      ensures exists p <- st.nodes :: p.depth + 1 == n.depth && Hop(g, q, p.id, n.id)
    {
      var p: nat :| ParentAt(g, q, st, n, p);
      assert st.nodes[p] in st.nodes;
    }
    forall n | n in st.nodes && n.depth == 0 ensures IsSeed(g, q, n.id) {
      assert NodeOk(g, q, n);
    }
  }

  /** No walk from a seed to the end of a reported path is shorter. */
  lemma {:induction false} PathIsShortest(g: Graph, q: Query, path: seq<Id>, other: seq<Id>)
    requires path != [] && Distance(g, q, path[|path| - 1], |path| - 1)
    requires IsPath(g, q, other) && other[|other| - 1] == path[|path| - 1]
    ensures |path| <= |other|
  {
    WalkIsWithin(g, q, other);
    DistanceIsLeast(g, q, path[|path| - 1], |path| - 1, |other| - 1);
  }
}
