/** The tables and the states of the bounded breadth-first search (src/context/graph.ts, queryActivityGraph), and what every
    step of it keeps. */
module GraphModel {
  import opened Prelude

  type Id = nat
  type Relation = nat

  datatype Direction = Out | In | Both

  datatype Edge = Edge(id: Id, source: Id, target: Id, relation: Relation, evidence: Id)

  /** The tables one query reads: nodes with their evidence refs, and edges in id order. `eventNode` is the hash that
      names the event node of an evidence ref; `visible` holds of evidence readable at the pinned generation. */
  datatype Graph = Graph(nodes: map<Id, Id>, edges: seq<Edge>, eventNode: Id -> Id, visible: Id -> bool)

  /** Edge ids are unique and both ends of an edge exist. */
  ghost predicate WellFormed(g: Graph) {
    && (forall i, j :: 0 <= i < j < |g.edges| ==> g.edges[i].id != g.edges[j].id)
    && (forall e <- g.edges :: e.source in g.nodes && e.target in g.nodes)
  }

  datatype Node = Node(id: Id, evidence: Id, depth: nat)

  datatype Reason = VisitedNodes | ReturnedNodes | ResponseBytes | WallTime | ExaminedEdges

  datatype State = State(
    nodes: seq<Node>,
    edges: seq<Edge>,
    seenEdges: set<Id>,
    parents: map<Id, Id>,
    examined: nat,
    truncatedBy: set<Reason>,
    path: seq<Id>)
  {
    predicate Partial() { truncatedBy != {} }

    predicate Seen(id: Id) { exists n <- nodes :: n.id == id }

    function Stop(reason: Reason): State { this.(truncatedBy := truncatedBy + {reason}) }
  }

  const Initial := State([], [], {}, map[], 0, {}, [])

  /** The JSON size of the response so far is an arbitrary number. */
  datatype Query = Query(
    refs: seq<Id>,
    target: Option<Id>,
    wantsPath: bool,
    direction: Direction,
    relations: Option<set<Relation>>,
    hops: nat,
    maxNodes: nat,
    maxEdges: nat,
    maxVisited: nat,
    cap: nat,
    cost: State -> nat)
  {
    predicate InBounds() {
      && 1 <= |refs| <= 20 && (wantsPath ==> target.Some?) && hops <= 3 && 1 <= maxNodes <= 100 && 1 <= maxEdges <= 2000 && 1 <= maxVisited <= 1000
      && 1 <= cap <= 131072
    }
  }

  // ---- What may be walked ----

  predicate NodeVisible(g: Graph, id: Id) {
    id in g.nodes && g.visible(g.nodes[id])
  }

  /** A ref names a node, or an evidence ref with an event node; its evidence must be visible. */
  function Resolve(g: Graph, ref: Id): Option<Id> {
    var id := if ref in g.nodes then ref else g.eventNode(ref);
    if NodeVisible(g, id) then Some(id) else None
  }

  predicate Allowed(g: Graph, q: Query, e: Edge) {
    (q.relations.Some? ==> e.relation in q.relations.value) && g.visible(e.evidence)
  }

  /** The columns searched for the current node. */
  datatype Column = Source | Target

  function Columns(d: Direction): seq<Column> {
    match d case Out => [Source] case In => [Target] case Both => [Source, Target]
  }

  function EndAt(e: Edge, c: Column): Id { if c.Source? then e.source else e.target }

  function OtherEnd(e: Edge, id: Id): Id { if e.source == id then e.target else e.source }

  /** The edge is found from node u in one of the searched columns. */
  predicate FoundFrom(q: Query, e: Edge, u: Id) {
    exists c <- Columns(q.direction) :: EndAt(e, c) == u
  }

  ghost predicate HopVia(g: Graph, q: Query, u: Id, v: Id, e: Edge) {
    e in g.edges && FoundFrom(q, e, u) && OtherEnd(e, u) == v && Allowed(g, q, e) && NodeVisible(g, v)
  }

  /** One hop: a visible, allowed edge in the chosen direction to a visible node. */
  ghost predicate Hop(g: Graph, q: Query, u: Id, v: Id) {
    exists e :: HopVia(g, q, u, v, e)
  }

  /** Some ref of the query names the node. */
  ghost predicate IsSeed(g: Graph, q: Query, id: Id) {
    exists ref <- q.refs :: Resolve(g, ref) == Some(id)
  }

  /** The node is at most k hops from a seed. */
  ghost predicate Within(g: Graph, q: Query, id: Id, k: nat)
    decreases k, 0
  {
    if k == 0 then IsSeed(g, q, id) else Within(g, q, id, k - 1) || NextTo(g, q, id, k - 1)
  }

  /** The node is one hop from a node within k hops. */
  ghost predicate NextTo(g: Graph, q: Query, id: Id, k: nat)
    decreases k, 1
  {
    exists u :: Within(g, q, u, k) && Hop(g, q, u, id)
  }

  /** k is the distance from the nearest seed. */
  ghost predicate Distance(g: Graph, q: Query, id: Id, k: nat) {
    Within(g, q, id, k) && (k > 0 ==> !Within(g, q, id, k - 1))
  }

  // ---- What every step of the search keeps ----

  ghost predicate DistinctIds(st: State) {
    forall a, b :: 0 <= a < b < |st.nodes| ==> st.nodes[a].id != st.nodes[b].id
  }

  /** Depths never go down along the queue. */
  ghost predicate Layered(st: State) {
    forall a, b :: 0 <= a <= b < |st.nodes| ==> st.nodes[a].depth <= st.nodes[b].depth
  }

  ghost predicate NodeOk(g: Graph, q: Query, n: Node) {
    NodeVisible(g, n.id) && n.evidence == g.nodes[n.id] && n.depth <= q.hops && Distance(g, q, n.id, n.depth)
  }

  /** The node at p is one level above n and one hop away. */
  ghost predicate ParentAt(g: Graph, q: Query, st: State, n: Node, p: nat) {
    && p < |st.nodes| && n.id in st.parents && st.nodes[p].id == st.parents[n.id]
    && st.nodes[p].depth + 1 == n.depth && Hop(g, q, st.nodes[p].id, n.id)
  }

  ghost predicate ParentsOk(g: Graph, q: Query, st: State) {
    forall n <- st.nodes :: if n.depth == 0 then n.id !in st.parents else exists p :: ParentAt(g, q, st, n, p)
  }

  ghost predicate EdgesOk(g: Graph, q: Query, st: State) {
    forall e <- st.edges :: e in g.edges && Allowed(g, q, e) && st.Seen(e.source) && st.Seen(e.target) && InReach(g, q, e)
  }

  /** The edge leads from a node within max_hops - 1 hops to a visible node. */
  ghost predicate InReach(g: Graph, q: Query, e: Edge) {
    q.hops > 0 && exists u, v :: ReachedFrom(g, q, u, v, e)
  }

  ghost predicate ReachedFrom(g: Graph, q: Query, u: Id, v: Id, e: Edge)
    requires q.hops > 0
  {
    HopVia(g, q, u, v, e) && Within(g, q, u, q.hops - 1)
  }

  /** No edge is returned twice. */
  ghost predicate DistinctEdges(st: State) {
    forall i, j :: 0 <= i < j < |st.edges| ==> st.edges[i].id != st.edges[j].id
  }

  ghost predicate CapsOk(q: Query, st: State) {
    |st.nodes| <= q.maxNodes && |st.nodes| <= q.maxVisited && st.examined <= q.maxEdges && |st.edges| <= st.examined
  }

  ghost predicate NodesOk(g: Graph, q: Query, st: State) {
    forall n <- st.nodes :: NodeOk(g, q, n)
  }

  ghost predicate SeenEdgesOk(st: State) {
    && (forall id <- st.seenEdges :: exists e :: e in st.edges && e.id == id)
    && (forall e <- st.edges :: e.id in st.seenEdges)
  }

  /** The response with one more node or edge. */
  ghost predicate OneMore(st: State, bigger: State) {
    || (st.nodes <= bigger.nodes && |bigger.nodes| == |st.nodes| + 1 && bigger.edges == st.edges)
    || (bigger.nodes == st.nodes && st.edges <= bigger.edges && |bigger.edges| == |st.edges| + 1)
  }

  /** The search is cut off only by a cap that has been reached, by a response that would grow too large, or by the clock. */
  ghost predicate CutsOk(q: Query, st: State) {
    && (VisitedNodes in st.truncatedBy ==> |st.nodes| == q.maxVisited)
    && (ReturnedNodes in st.truncatedBy ==> |st.nodes| == q.maxNodes)
    && (ExaminedEdges in st.truncatedBy ==> st.examined == q.maxEdges)
    && (ResponseBytes in st.truncatedBy ==> exists bigger :: OneMore(st, bigger) && q.cost(bigger) + 256 > q.cap)
  }

  ghost predicate Kept(g: Graph, q: Query, st: State) {
    && DistinctIds(st) && Layered(st) && NodesOk(g, q, st) && ParentsOk(g, q, st)
    && EdgesOk(g, q, st) && DistinctEdges(st) && SeenEdgesOk(st) && CapsOk(q, st) && CutsOk(q, st)
  }

  /** Every node one hop from u is in the queue, and every edge that leads there in the response. */
  ghost predicate Expanded(g: Graph, q: Query, st: State, u: Id) {
    forall v, e :: HopVia(g, q, u, v, e) ==> st.Seen(v) && e in st.edges
  }

  /** The nodes before i are expanded as far as max_hops asks. */
  ghost predicate ExpandedBefore(g: Graph, q: Query, st: State, i: nat) {
    i <= |st.nodes| && forall a: nat :: a < i && st.nodes[a].depth < q.hops ==> Expanded(g, q, st, st.nodes[a].id)
  }

  ghost predicate SeedsSeen(g: Graph, q: Query, st: State) {
    forall id :: IsSeed(g, q, id) ==> st.Seen(id)
  }

  /** No node is more than one level below the node at i. */
  ghost predicate DepthsUpTo(st: State, depth: nat) {
    forall n <- st.nodes :: n.depth <= depth
  }

  ghost predicate Progress(g: Graph, q: Query, st: State, i: nat) {
    && SeedsSeen(g, q, st) && ExpandedBefore(g, q, st, i)
    && (i < |st.nodes| ==> DepthsUpTo(st, st.nodes[i].depth + 1))
  }

  // ---- The search ----

  /** What adding to a state keeps of it. */
  ghost predicate Extends(st: State, next: State) {
    st.nodes <= next.nodes && st.edges <= next.edges && (forall id :: st.Seen(id) ==> next.Seen(id))
  }

  /** The state with a new node one hop from the node at i. */
  function WithNode(st: State, i: nat, n: Node): State
    requires i < |st.nodes|
  {
    st.(nodes := st.nodes + [n], parents := st.parents[n.id := st.nodes[i].id])
  }

  /** n is a new node, one hop from the node at i and one level below it. */
  ghost predicate NewNeighbour(g: Graph, q: Query, st: State, i: nat, n: Node) {
    && i < |st.nodes| && st.nodes[i].depth < q.hops && !st.Seen(n.id) && Hop(g, q, st.nodes[i].id, n.id)
    && n.depth == st.nodes[i].depth + 1 && NodeVisible(g, n.id) && n.evidence == g.nodes[n.id]
  }

  /** The row's edge has been dealt with: if it may be walked, its other end is in the queue, and it is in the response. */
  ghost predicate Handled(g: Graph, q: Query, st: State, current: Id, e: Edge) {
    Allowed(g, q, e) && NodeVisible(g, OtherEnd(e, current)) ==> st.Seen(OtherEnd(e, current)) && e in st.edges
  }

  /** SELECT * FROM activity_edges WHERE column = id ORDER BY edge_id LIMIT n */
  function RowsAt(edges: seq<Edge>, column: Column, id: Id, n: nat): (rows: seq<Edge>)
    ensures forall e <- rows :: e in edges && EndAt(e, column) == id
    ensures |rows| <= n
  {
    if edges == [] || n == 0 then []
    else if EndAt(edges[0], column) == id then [edges[0]] + RowsAt(edges[1..], column, id, n - 1)
    else RowsAt(edges[1..], column, id, n)
  }

  ghost predicate ColumnHandled(g: Graph, q: Query, st: State, u: Id, column: Column) {
    forall e <- g.edges :: EndAt(e, column) == u ==> Handled(g, q, st, u, e)
  }

  /** The first k of these rows have been dealt with. */
  ghost predicate RowsHandled(g: Graph, q: Query, st: State, u: Id, rows: seq<Edge>, k: nat)
    requires k <= |rows|
  {
    k > 0 ==> Handled(g, q, st, u, rows[k - 1]) && RowsHandled(g, q, st, u, rows, k - 1)
  }

  /** The first k of these columns have been searched. */
  ghost predicate ColumnsHandled(g: Graph, q: Query, st: State, u: Id, columns: seq<Column>, k: nat)
    requires k <= |columns|
  {
    k > 0 ==> ColumnHandled(g, q, st, u, columns[k - 1]) && ColumnsHandled(g, q, st, u, columns, k - 1)
  }

  // ---- The path to the target ----

  /** A walk from a seed, hop by hop. */
  ghost predicate IsPath(g: Graph, q: Query, path: seq<Id>) {
    && path != [] && IsSeed(g, q, path[0])
    && forall k :: 0 <= k < |path| - 1 ==> Hop(g, q, path[k], path[k + 1])
  }

  /** A tail of such a walk. */
  ghost predicate IsTail(g: Graph, q: Query, path: seq<Id>, target: Id) {
    && path != [] && path[|path| - 1] == target
    && forall k :: 0 <= k < |path| - 1 ==> Hop(g, q, path[k], path[k + 1])
  }

  // ---- The query ----

  datatype Error = BudgetExceeded | RefNotFound

  datatype Result = Answered(response: State) | Refused(error: Error)
}
