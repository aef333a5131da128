/** Lemmas about single steps of the search. A layer of the queue that has been expanded is complete, so a node met for the
    first time stands exactly one level below the node that is being expanded; adding a node, an edge or a parent link, and
    counting a row, each keep the parts of the invariant that they touch; and what a row or a column has found stays found
    when the state grows. */
module GraphLemmas {
  import opened Prelude
  import opened GraphModel

  lemma {:induction false} WithinGrows(g: Graph, q: Query, id: Id, j: nat, k: nat)
    requires j <= k && Within(g, q, id, j)
    ensures Within(g, q, id, k)
    decreases k - j
  {
    if j < k {
      WithinGrows(g, q, id, j, k - 1);
    }
  }

  lemma SeenAt(st: State, id: Id) returns (a: nat)
    requires st.Seen(id)
    ensures a < |st.nodes| && st.nodes[a].id == id && st.nodes[a] in st.nodes
  {
    var n :| n in st.nodes && n.id == id;
    a :| 0 <= a < |st.nodes| && st.nodes[a] == n;
  }

  lemma SeenAfterPush(st: State, n: Node, id: Id)
    ensures st.(nodes := st.nodes + [n]).Seen(id) <==> st.Seen(id) || id == n.id
  {
    var next := st.(nodes := st.nodes + [n]);
    assert forall m :: m in next.nodes <==> m in st.nodes || m == n;
  }

  /** Pushing a node that is not there yet, at least as deep as the last one. */
  lemma PushKept(g: Graph, q: Query, st: State, next: State, n: Node)
    requires DistinctIds(st) && Layered(st) && EdgesOk(g, q, st) && NodesOk(g, q, st)
    requires !st.Seen(n.id) && NodeOk(g, q, n)
    requires next.nodes == st.nodes + [n] && next.edges == st.edges && next.seenEdges == st.seenEdges
    requires st.nodes != [] ==> st.nodes[|st.nodes| - 1].depth <= n.depth
    ensures DistinctIds(next) && Layered(next) && EdgesOk(g, q, next) && NodesOk(g, q, next)
    ensures Extends(st, next)
  {
    assert forall m :: m in next.nodes <==> m in st.nodes || m == n;
    assert forall a :: 0 <= a < |st.nodes| ==> st.nodes[a] in st.nodes && next.nodes[a] == st.nodes[a];
    forall id ensures st.Seen(id) ==> next.Seen(id) {
      SeenAfterPush(st, n, id);
    }
  }

  /** A seed joins a queue of seeds. */
  lemma SeedKept(g: Graph, q: Query, st: State, n: Node)
    requires Kept(g, q, st) && !st.Seen(n.id) && st.parents == map[] && !st.Partial()
    requires DepthsUpTo(st, 0)
    requires n.depth == 0 && IsSeed(g, q, n.id) && NodeVisible(g, n.id) && n.evidence == g.nodes[n.id]
    requires |st.nodes| + 1 <= q.maxNodes && |st.nodes| + 1 <= q.maxVisited
    ensures Kept(g, q, st.(nodes := st.nodes + [n]))
  {
    assert st.nodes != [] ==> st.nodes[|st.nodes| - 1] in st.nodes;
    assert NodeOk(g, q, n);
    PushKept(g, q, st, st.(nodes := st.nodes + [n]), n);
  }

  lemma NeighbourProgress(g: Graph, q: Query, st: State, i: nat, n: Node)
    requires Progress(g, q, st, i) && NewNeighbour(g, q, st, i, n) && Extends(st, WithNode(st, i, n))
    ensures Progress(g, q, WithNode(st, i, n), i)
  {
    ProgressExtends(g, q, st, WithNode(st, i, n), i);
    DepthsExtend(st, WithNode(st, i, n), n, n.depth);
  }

  lemma LastDepth(st: State, i: nat)
    requires i < |st.nodes| && DepthsUpTo(st, st.nodes[i].depth + 1)
    ensures st.nodes[|st.nodes| - 1].depth <= st.nodes[i].depth + 1
  {
    assert st.nodes[|st.nodes| - 1] in st.nodes;
  }

  lemma DepthsExtend(st: State, next: State, n: Node, depth: nat)
    requires DepthsUpTo(st, depth) && next.nodes == st.nodes + [n] && n.depth <= depth
    ensures DepthsUpTo(next, depth)
  {
  }

  lemma ParentsExtend(g: Graph, q: Query, st: State, next: State, n: Node, i: nat)
    requires ParentsOk(g, q, st) && i < |st.nodes| && !st.Seen(n.id) && n.depth == st.nodes[i].depth + 1
    requires next.nodes == st.nodes + [n] && next.parents == st.parents[n.id := st.nodes[i].id]
    requires Hop(g, q, st.nodes[i].id, n.id)
    ensures ParentsOk(g, q, next)
  {
    forall m | m in next.nodes
      ensures if m.depth == 0 then m.id !in next.parents else exists p :: ParentAt(g, q, next, m, p)
    {
      if m in st.nodes {
        assert m.id != n.id;
        if m.depth > 0 {
          var p :| ParentAt(g, q, st, m, p);
          assert ParentAt(g, q, next, m, p);
        }
      } else {
        assert m == n;
        assert ParentAt(g, q, next, n, i);
      }
    }
  }

  lemma ProgressExtends(g: Graph, q: Query, st: State, next: State, i: nat)
    requires SeedsSeen(g, q, st) && ExpandedBefore(g, q, st, i) && Extends(st, next)
    ensures SeedsSeen(g, q, next) && ExpandedBefore(g, q, next, i)
  {
    forall a: nat | a < i && next.nodes[a].depth < q.hops ensures Expanded(g, q, next, next.nodes[a].id) {
      assert next.nodes[a] == st.nodes[a];
      assert Expanded(g, q, st, st.nodes[a].id);
    }
  }

  lemma SameNodesAndEdges(g: Graph, q: Query, st: State, next: State)
    requires st.nodes == next.nodes && st.edges == next.edges
    ensures DistinctIds(st) ==> DistinctIds(next)
    ensures Layered(st) ==> Layered(next)
    ensures EdgesOk(g, q, st) ==> EdgesOk(g, q, next)
    ensures forall id :: st.Seen(id) <==> next.Seen(id)
  {
  }

  lemma SameNodesProgress(g: Graph, q: Query, st: State, next: State, i: nat)
    requires Progress(g, q, st, i) && next.nodes == st.nodes && st.edges <= next.edges
    ensures Progress(g, q, next, i)
  {
    ProgressExtends(g, q, st, next, i);
  }

  /** The parent of a node that is not in the queue does not matter. */
  lemma {:induction false} UnseenParent(g: Graph, q: Query, st: State, next: State, id: Id, parent: Id)
    requires Kept(g, q, st) && !st.Seen(id) && CapsOk(q, next) && CutsOk(q, next)
    requires next.(parents := st.parents, examined := st.examined, truncatedBy := st.truncatedBy) == st
    requires next.parents == st.parents[id := parent] || next.parents == st.parents
    ensures Kept(g, q, next)
  {
    forall n | n in next.nodes
      ensures if n.depth == 0 then n.id !in next.parents else exists p :: ParentAt(g, q, next, n, p)
    {
      assert n.id != id;
      if n.depth > 0 {
        var p :| ParentAt(g, q, st, n, p);
        assert ParentAt(g, q, next, n, p);
      }
    }
    SameNodesAndEdges(g, q, st, next);
  }

  /** Counting an examined row, stopping, or noting a path changes nothing else. */
  lemma {:induction false} CountersKept(g: Graph, q: Query, st: State, next: State)
    requires Kept(g, q, st) && CapsOk(q, next) && CutsOk(q, next)
    requires next.(examined := st.examined, truncatedBy := st.truncatedBy, path := st.path) == st
    ensures Kept(g, q, next) && Extends(st, next)
  {
    forall n | n in next.nodes
      ensures if n.depth == 0 then n.id !in next.parents else exists p :: ParentAt(g, q, next, n, p)
    {
      if n.depth > 0 {
        var p :| ParentAt(g, q, st, n, p);
        assert ParentAt(g, q, next, n, p);
      }
    }
    SameNodesAndEdges(g, q, st, next);
  }

  /** An allowed edge between queued nodes joins the response. */
  lemma {:induction false} EdgeKept(g: Graph, q: Query, st: State, next: State, e: Edge)
    requires Kept(g, q, st) && e in g.edges && Allowed(g, q, e) && st.Seen(e.source) && st.Seen(e.target)
    requires |st.edges| < st.examined && e.id !in st.seenEdges && InReach(g, q, e) && !st.Partial()
    requires next == st.(edges := st.edges + [e], seenEdges := st.seenEdges + {e.id})
    ensures Kept(g, q, next) && Extends(st, next)
  {
    assert forall d :: d in next.edges <==> d in st.edges || d == e;
    forall i | 0 <= i < |st.edges| ensures next.edges[i].id != e.id {
      assert st.edges[i] in st.edges;
    }
    forall n | n in next.nodes
      ensures if n.depth == 0 then n.id !in next.parents else exists p :: ParentAt(g, q, next, n, p)
    {
      if n.depth > 0 {
        var p :| ParentAt(g, q, st, n, p);
        assert ParentAt(g, q, next, n, p);
      }
    }
    assert forall id :: st.Seen(id) <==> next.Seen(id);
  }

  /** An edge that was seen before has both its ends in the queue. */
  lemma SeenEdgeHandled(g: Graph, q: Query, st: State, current: Id, e: Edge)
    requires WellFormed(g) && EdgesOk(g, q, st) && SeenEdgesOk(st) && e in g.edges && e.id in st.seenEdges
    ensures Handled(g, q, st, current, e)
  {
    var d :| d in st.edges && d.id == e.id;
    var i :| 0 <= i < |g.edges| && g.edges[i] == d;
    var j :| 0 <= j < |g.edges| && g.edges[j] == e;
    assert i == j;
  }

  lemma HopByEdge(g: Graph, q: Query, u: Id, e: Edge, column: Column)
    requires e in g.edges && column in Columns(q.direction) && EndAt(e, column) == u
    requires Allowed(g, q, e) && NodeVisible(g, OtherEnd(e, u))
    ensures Hop(g, q, u, OtherEnd(e, u))
  {
    assert HopVia(g, q, u, OtherEnd(e, u), e);
  }

  /** Fewer rows than the limit are all the rows. */
  lemma {:induction false} RowsAtComplete(edges: seq<Edge>, column: Column, id: Id, n: nat, e: Edge)
    requires |RowsAt(edges, column, id, n)| < n && e in edges && EndAt(e, column) == id
    ensures e in RowsAt(edges, column, id, n)
  {
    if e != edges[0] {
      assert e in edges[1..];
      RowsAtComplete(edges[1..], column, id, if EndAt(edges[0], column) == id then n - 1 else n, e);
    }
  }

  lemma {:induction false} RowsHandledExtends(g: Graph, q: Query, st: State, next: State, u: Id, rows: seq<Edge>, k: nat)
    requires k <= |rows| && Extends(st, next) && RowsHandled(g, q, st, u, rows, k)
    ensures RowsHandled(g, q, next, u, rows, k)
  {
    if k > 0 {
      RowsHandledExtends(g, q, st, next, u, rows, k - 1);
    }
  }

  lemma {:induction false} RowHandled(g: Graph, q: Query, st: State, u: Id, rows: seq<Edge>, k: nat, j: nat)
    requires j < k <= |rows| && RowsHandled(g, q, st, u, rows, k)
    ensures Handled(g, q, st, u, rows[j])
  {
    if j < k - 1 {
      RowHandled(g, q, st, u, rows, k - 1, j);
    }
  }

  /** All the rows of a fetch below its limit are all the edges of the column. */
  lemma {:induction false} ColumnDone(g: Graph, q: Query, st: State, u: Id, column: Column, n: nat)
    requires
      var rows := RowsAt(g.edges, column, u, n);
      |rows| < n && RowsHandled(g, q, st, u, rows, |rows|)
    ensures ColumnHandled(g, q, st, u, column)
  {
    var rows := RowsAt(g.edges, column, u, n);
    forall e | e in g.edges && EndAt(e, column) == u ensures Handled(g, q, st, u, e) {
      RowsAtComplete(g.edges, column, u, n, e);
      var j :| 0 <= j < |rows| && rows[j] == e;
      RowHandled(g, q, st, u, rows, |rows|, j);
    }
  }

  lemma {:induction false} ColumnHandledExtends(g: Graph, q: Query, st: State, next: State, u: Id, column: Column)
    requires Extends(st, next) && ColumnHandled(g, q, st, u, column)
    ensures ColumnHandled(g, q, next, u, column)
  {
    forall e | e in g.edges && EndAt(e, column) == u ensures Handled(g, q, next, u, e) {
      assert Handled(g, q, st, u, e);
    }
  }

  lemma {:induction false} ColumnsHandledExtend(g: Graph, q: Query, st: State, next: State, u: Id, columns: seq<Column>, k: nat)
    requires k <= |columns| && Extends(st, next) && ColumnsHandled(g, q, st, u, columns, k)
    ensures ColumnsHandled(g, q, next, u, columns, k)
  {
    if k > 0 {
      ColumnHandledExtends(g, q, st, next, u, columns[k - 1]);
      ColumnsHandledExtend(g, q, st, next, u, columns, k - 1);
    }
  }

  lemma NextColumn(g: Graph, q: Query, st: State, next: State, u: Id, columns: seq<Column>, k: nat)
    requires k < |columns| && Extends(st, next)
    requires ColumnsHandled(g, q, st, u, columns, k) && ColumnHandled(g, q, next, u, columns[k])
    ensures ColumnsHandled(g, q, next, u, columns, k + 1)
  {
    ColumnsHandledExtend(g, q, st, next, u, columns, k);
  }

  lemma ColumnsExpand(g: Graph, q: Query, st: State, u: Id)
    requires
      var columns := Columns(q.direction);
      ColumnsHandled(g, q, st, u, columns, |columns|)
    ensures Expanded(g, q, st, u)
  {
    var columns := Columns(q.direction);
    forall v, e | HopVia(g, q, u, v, e) ensures st.Seen(v) && e in st.edges {
      var c :| c in columns && EndAt(e, c) == u;
      assert ColumnHandled(g, q, st, u, columns[0]);
      assert |columns| == 2 ==> ColumnHandled(g, q, st, u, columns[1]) && ColumnsHandled(g, q, st, u, columns, 1);
      assert Handled(g, q, st, u, e);
    }
  }

  lemma NextIndex(g: Graph, q: Query, st: State, i: nat)
    requires Progress(g, q, st, i) && Layered(st) && i < |st.nodes|
    requires st.nodes[i].depth < q.hops ==> Expanded(g, q, st, st.nodes[i].id)
    ensures Progress(g, q, st, i + 1)
  {
  }

  /** The bounds of a query, and what it takes to resolve a ref. */
  lemma BoundsMean(g: Graph, q: Query, ref: Id, id: Id)
    ensures q.InBounds() <==>
      && 1 <= |q.refs| <= 20 && q.hops <= 3 && 1 <= q.maxNodes <= 100 && 1 <= q.maxEdges <= 2000 && 1 <= q.maxVisited <= 1000
      && 1 <= q.cap <= 131072 && (q.wantsPath ==> q.target.Some?)
    ensures Resolve(g, ref) == Some(id) <==>
      && id in g.nodes && g.visible(g.nodes[id]) && (ref == id || (ref !in g.nodes && g.eventNode(ref) == id))
  {
  }

  lemma HopViaMeans(g: Graph, q: Query, u: Id, v: Id, e: Edge)
    ensures HopVia(g, q, u, v, e) <==>
      && e in g.edges && g.visible(e.evidence) && v in g.nodes && g.visible(g.nodes[v])
      && (q.relations.None? || e.relation in q.relations.value)
      && ((!q.direction.In? && e.source == u && e.target == v) || (!q.direction.Out? && e.target == u && e.source == v))
  {
    var columns := Columns(q.direction);
    assert forall c :: c in columns <==> (c == Source && !q.direction.In?) || (c == Target && !q.direction.Out?);
    assert EndAt(e, Source) == e.source && EndAt(e, Target) == e.target;
    assert FoundFrom(q, e, u) <==> (!q.direction.In? && e.source == u) || (!q.direction.Out? && e.target == u);
  }

  lemma PrependHop(g: Graph, q: Query, id: Id, path: seq<Id>, target: Id)
    requires IsTail(g, q, path, target) && Hop(g, q, id, path[0])
    ensures IsTail(g, q, [id] + path, target)
  {
    var longer := [id] + path;
    assert forall k :: 0 < k < |longer| - 1 ==> longer[k] == path[k - 1] && longer[k + 1] == path[k];
  }

  lemma {:induction false} WalkIsWithin(g: Graph, q: Query, path: seq<Id>)
    requires IsPath(g, q, path)
    ensures Within(g, q, path[|path| - 1], |path| - 1)
    decreases |path|
  {
    if |path| > 1 {
      var shorter := path[..|path| - 1];
      WalkIsWithin(g, q, shorter);
      assert Hop(g, q, path[|path| - 2], path[|path| - 2 + 1]);
      assert NextTo(g, q, path[|path| - 1], |path| - 2);
    }
  }
}
