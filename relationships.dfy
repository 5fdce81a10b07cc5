/**
 * The typed relation graph between model components (`Relationships::Impl`).
 *
 * Components are graph vertices stamped with a uuid; relations are edges
 * stamped BOUNDARY_RELATION or ITEM_RELATION, oriented from slot 0 to slot 1.
 * The graph is abstracted as its edge array: the edges around a vertex are
 * its (edge, slot) occurrences in edge creation order, slot 0 before slot 1.
 */
module RelationGraph {
  import opened Basic

  const BOUNDARY_RELATION: nat := 0
  const ITEM_RELATION: nat := 1
  const BOUNDARY_EDGE_VERTEX: nat := 0
  const INCIDENT_EDGE_VERTEX: nat := 1
  const ITEM_EDGE_VERTEX: nat := 0
  const COLLECTION_EDGE_VERTEX: nat := 1

  /** An edge of the graph: its two endpoints and its `relation_type` attribute value. */
  datatype Edge = Edge(v0: nat, v1: nat, relation: nat)

  /** An occurrence of a vertex on an edge: the edge index and the slot (0 or 1). */
  datatype EdgeVertex = EdgeVertex(edge: nat, slot: nat)

  /** The four filtered ranges over the edges around a component. */
  datatype RangeKind = Boundaries | Incidences | Items | Collections

  function Endpoint(e: Edge, slot: nat): nat
  {
    if slot == 0 then e.v0 else e.v1
  }

  /** `(vertex_id + 1) % 2`: the slot at the other end of the edge. */
  function Opposite(slot: nat): nat
  {
    (slot + 1) % 2
  }

  /**
   * The skip loops of the four range iterators: an edge vertex is yielded when
   * its edge has the range's relation type and its slot is NOT the one the
   * iterator skips (BOUNDARY_EDGE_VERTEX, INCIDENT_EDGE_VERTEX,
   * ITEM_EDGE_VERTEX, COLLECTION_EDGE_VERTEX respectively).
   */
  predicate Accepts(kind: RangeKind, relation: nat, slot: nat)
  {
    match kind
    case Boundaries => relation == BOUNDARY_RELATION && slot != BOUNDARY_EDGE_VERTEX
    case Incidences => relation == BOUNDARY_RELATION && slot != INCIDENT_EDGE_VERTEX
    case Items => relation == ITEM_RELATION && slot != ITEM_EDGE_VERTEX
    case Collections => relation == ITEM_RELATION && slot != COLLECTION_EDGE_VERTEX
  }

  predicate EndpointsBelow(edges: seq<Edge>, n: nat)
  {
    forall e :: e in edges ==> e.v0 < n && e.v1 < n
  }

  /** The occurrences of `v` on the edge with index `index`, slot 0 first. */
  function EdgeSlots(index: nat, e: Edge, v: nat): seq<EdgeVertex>
  {
    (if e.v0 == v then [EdgeVertex(index, 0)] else []) + (if e.v1 == v then [EdgeVertex(index, 1)] else [])
  }

  /** `edges_around_vertex(v)`: every occurrence of `v` on an edge, in edge order. */
  function EdgesAround(edges: seq<Edge>, v: nat): (r: seq<EdgeVertex>)
    ensures forall ev :: ev in r <==> ev.edge < |edges| && ev.slot < 2 && Endpoint(edges[ev.edge], ev.slot) == v
    decreases |edges|
  {
    if edges == [] then []
    else
      EdgeSlotsMembers(|edges| - 1, edges[|edges| - 1], v);
      EdgesAround(edges[..|edges| - 1], v) + EdgeSlots(|edges| - 1, edges[|edges| - 1], v)
  }

  lemma EdgeSlotsMembers(index: nat, e: Edge, v: nat)
    ensures forall ev :: ev in EdgeSlots(index, e, v) <==> ev.edge == index && ev.slot < 2 && Endpoint(e, ev.slot) == v
  {
  }

  /** What one edge vertex yields in a range: the uuid at the opposite end, if accepted. */
  function Yield(edges: seq<Edge>, uuids: seq<Uuid>, ev: EdgeVertex, kind: RangeKind): seq<Uuid>
    requires ev.edge < |edges| && EndpointsBelow(edges, |uuids|)
  {
    var e := edges[ev.edge];
    assert e in edges;
    if Accepts(kind, e.relation, ev.slot) then [uuids[Endpoint(e, Opposite(ev.slot))]] else []
  }

  /** A range iterator run over `around`: the accepted edge vertices mapped to their partner uuid. */
  function Filtered(edges: seq<Edge>, uuids: seq<Uuid>, around: seq<EdgeVertex>, kind: RangeKind): (r: seq<Uuid>)
    requires forall ev :: ev in around ==> ev.edge < |edges|
    requires EndpointsBelow(edges, |uuids|)
    ensures |r| <= |around|
  {
    if around == [] then []
    else Yield(edges, uuids, around[0], kind) + Filtered(edges, uuids, around[1..], kind)
  }

  /** The range of kind `kind` of the component at vertex `v`. */
  function Range(edges: seq<Edge>, uuids: seq<Uuid>, v: nat, kind: RangeKind): seq<Uuid>
    requires EndpointsBelow(edges, |uuids|)
  {
    Filtered(edges, uuids, EdgesAround(edges, v), kind)
  }

  /** What a whole edge contributes to the range of `v`: its slot-0 occurrence, then its slot-1 one. */
  function EdgeYield(e: Edge, uuids: seq<Uuid>, v: nat, kind: RangeKind): seq<Uuid>
    requires e.v0 < |uuids| && e.v1 < |uuids|
  {
    (if e.v0 == v && Accepts(kind, e.relation, 0) then [uuids[e.v1]] else []) +
    (if e.v1 == v && Accepts(kind, e.relation, 1) then [uuids[e.v0]] else [])
  }

  /** Reference definition of a range: the contributions of the edges, in edge order. */
  function RangeByEdges(edges: seq<Edge>, uuids: seq<Uuid>, v: nat, kind: RangeKind): seq<Uuid>
    requires EndpointsBelow(edges, |uuids|)
    decreases |edges|
  {
    if edges == [] then []
    else
      var last := edges[|edges| - 1];
      assert last in edges;
      RangeByEdges(edges[..|edges| - 1], uuids, v, kind) + EdgeYield(last, uuids, v, kind)
  }

  lemma {:induction false} FilteredConcat(edges: seq<Edge>, uuids: seq<Uuid>, a: seq<EdgeVertex>, b: seq<EdgeVertex>, kind: RangeKind)
    requires forall ev :: ev in a + b ==> ev.edge < |edges|
    requires EndpointsBelow(edges, |uuids|)
    ensures Filtered(edges, uuids, a + b, kind) == Filtered(edges, uuids, a, kind) + Filtered(edges, uuids, b, kind)
  {
    if a == [] {
      assert a + b == b;
    } else {
      assert (a + b)[1..] == a[1..] + b;
      FilteredConcat(edges, uuids, a[1..], b, kind);
    }
  }

  /** Appending edges does not change what the occurrences on existing edges yield. */
  lemma {:induction false} FilteredExtend(edges: seq<Edge>, more: seq<Edge>, uuids: seq<Uuid>, around: seq<EdgeVertex>, kind: RangeKind)
    requires forall ev :: ev in around ==> ev.edge < |edges|
    requires EndpointsBelow(edges + more, |uuids|)
    ensures EndpointsBelow(edges, |uuids|)
    ensures Filtered(edges + more, uuids, around, kind) == Filtered(edges, uuids, around, kind)
  {
    assert forall e :: e in edges ==> e in edges + more;
    if around != [] {
      assert (edges + more)[around[0].edge] == edges[around[0].edge];
      FilteredExtend(edges, more, uuids, around[1..], kind);
    }
  }

  /** The occurrences on one edge yield exactly that edge's contribution. */
  lemma FilteredSlots(edges: seq<Edge>, uuids: seq<Uuid>, n: nat, v: nat, kind: RangeKind)
    requires n < |edges| && EndpointsBelow(edges, |uuids|)
    ensures edges[n].v0 < |uuids| && edges[n].v1 < |uuids|
    ensures Filtered(edges, uuids, EdgeSlots(n, edges[n], v), kind) == EdgeYield(edges[n], uuids, v, kind)
  {
    var e := edges[n];
    assert e in edges;
    var first := if e.v0 == v then [EdgeVertex(n, 0)] else [];
    var second := if e.v1 == v then [EdgeVertex(n, 1)] else [];
    assert EdgeSlots(n, e, v) == first + second;
    FilteredConcat(edges, uuids, first, second, kind);
    assert Filtered(edges, uuids, first, kind) == (if e.v0 == v && Accepts(kind, e.relation, 0) then [uuids[e.v1]] else []) by {
      if e.v0 == v {
        FilteredSingle(edges, uuids, EdgeVertex(n, 0), kind);
      }
    }
    assert Filtered(edges, uuids, second, kind) == (if e.v1 == v && Accepts(kind, e.relation, 1) then [uuids[e.v0]] else []) by {
      if e.v1 == v {
        FilteredSingle(edges, uuids, EdgeVertex(n, 1), kind);
      }
    }
  }

  lemma FilteredSingle(edges: seq<Edge>, uuids: seq<Uuid>, ev: EdgeVertex, kind: RangeKind)
    requires ev.edge < |edges| && EndpointsBelow(edges, |uuids|)
    ensures Filtered(edges, uuids, [ev], kind) == Yield(edges, uuids, ev, kind)
  {
    assert [ev][1..] == [];
  }

  /** The range iterators over edges-around agree with the edge-by-edge reference definition. */
  lemma {:induction false} RangeMatchesEdges(edges: seq<Edge>, uuids: seq<Uuid>, v: nat, kind: RangeKind)
    requires EndpointsBelow(edges, |uuids|)
    ensures Range(edges, uuids, v, kind) == RangeByEdges(edges, uuids, v, kind)
    decreases |edges|
  {
    if edges != [] {
      var n := |edges| - 1;
      var prefix, last := edges[..n], edges[n];
      assert edges == prefix + [last];
      var head, tail := EdgesAround(prefix, v), EdgeSlots(n, last, v);
      assert EdgesAround(edges, v) == head + tail;
      FilteredConcat(edges, uuids, head, tail, kind);
      FilteredExtend(prefix, [last], uuids, head, kind);
      RangeMatchesEdges(prefix, uuids, v, kind);
      FilteredSlots(edges, uuids, n, v, kind);
    }
  }

  /** A new edge adds its own contribution at the end of every range and changes nothing before it. */
  lemma AppendEdgeRange(edges: seq<Edge>, e: Edge, uuids: seq<Uuid>, v: nat, kind: RangeKind)
    requires EndpointsBelow(edges, |uuids|) && e.v0 < |uuids| && e.v1 < |uuids|
    ensures EndpointsBelow(edges + [e], |uuids|)
    ensures Range(edges + [e], uuids, v, kind) == Range(edges, uuids, v, kind) + EdgeYield(e, uuids, v, kind)
  {
    RangeMatchesEdges(edges + [e], uuids, v, kind);
    RangeMatchesEdges(edges, uuids, v, kind);
    assert (edges + [e])[..|edges|] == edges;
  }

  /**
   * `add_boundary_relation(A, B)` on a fresh pair of distinct components: A
   * becomes the last boundary of B and B the last incidence of A, while the
   * new edge adds nothing to the boundaries of A or the incidences of B.
   */
  lemma FreshBoundaryRelation(edges: seq<Edge>, uuids: seq<Uuid>, a: nat, b: nat)
    requires EndpointsBelow(edges, |uuids|) && a < |uuids| && b < |uuids| && a != b
    ensures EndpointsBelow(edges + [Edge(a, b, BOUNDARY_RELATION)], |uuids|)
    ensures Range(edges + [Edge(a, b, BOUNDARY_RELATION)], uuids, b, Boundaries) == Range(edges, uuids, b, Boundaries) + [uuids[a]]
    ensures Range(edges + [Edge(a, b, BOUNDARY_RELATION)], uuids, a, Incidences) == Range(edges, uuids, a, Incidences) + [uuids[b]]
    ensures Range(edges + [Edge(a, b, BOUNDARY_RELATION)], uuids, a, Boundaries) == Range(edges, uuids, a, Boundaries)
    ensures Range(edges + [Edge(a, b, BOUNDARY_RELATION)], uuids, b, Incidences) == Range(edges, uuids, b, Incidences)
  {
    var e := Edge(a, b, BOUNDARY_RELATION);
    AppendEdgeRange(edges, e, uuids, b, Boundaries);
    assert EdgeYield(e, uuids, b, Boundaries) == [uuids[a]];
    AppendEdgeRange(edges, e, uuids, a, Incidences);
    assert EdgeYield(e, uuids, a, Incidences) == [uuids[b]];
    AppendEdgeRange(edges, e, uuids, a, Boundaries);
    assert EdgeYield(e, uuids, a, Boundaries) == [];
    AppendEdgeRange(edges, e, uuids, b, Incidences);
    assert EdgeYield(e, uuids, b, Incidences) == [];
  }

  /**
   * `add_item_in_collection(I, C)` on a fresh pair of distinct components: I
   * becomes the last item of C and C the last collection of I.
   */
  lemma FreshItemRelation(edges: seq<Edge>, uuids: seq<Uuid>, i: nat, c: nat)
    requires EndpointsBelow(edges, |uuids|) && i < |uuids| && c < |uuids| && i != c
    ensures EndpointsBelow(edges + [Edge(i, c, ITEM_RELATION)], |uuids|)
    ensures Range(edges + [Edge(i, c, ITEM_RELATION)], uuids, c, Items) == Range(edges, uuids, c, Items) + [uuids[i]]
    ensures Range(edges + [Edge(i, c, ITEM_RELATION)], uuids, i, Collections) == Range(edges, uuids, i, Collections) + [uuids[c]]
    ensures Range(edges + [Edge(i, c, ITEM_RELATION)], uuids, i, Items) == Range(edges, uuids, i, Items)
    ensures Range(edges + [Edge(i, c, ITEM_RELATION)], uuids, c, Collections) == Range(edges, uuids, c, Collections)
  {
    var e := Edge(i, c, ITEM_RELATION);
    AppendEdgeRange(edges, e, uuids, c, Items);
    assert EdgeYield(e, uuids, c, Items) == [uuids[i]];
    AppendEdgeRange(edges, e, uuids, i, Collections);
    assert EdgeYield(e, uuids, i, Collections) == [uuids[c]];
    AppendEdgeRange(edges, e, uuids, i, Items);
    assert EdgeYield(e, uuids, i, Items) == [];
    AppendEdgeRange(edges, e, uuids, c, Collections);
    assert EdgeYield(e, uuids, c, Collections) == [];
  }

  /**
   * The direction-insensitive duplicate test of `check_relation_exists`: some
   * edge of type `t` has `v` at one end and a vertex stamped `to` at the other,
   * in either orientation.
   */
  predicate Linked(edges: seq<Edge>, uuids: seq<Uuid>, v: nat, to: Uuid, t: nat)
    requires EndpointsBelow(edges, |uuids|)
  {
    exists k :: 0 <= k < |edges| && edges[k].relation == t &&
      ((edges[k].v0 == v && uuids[edges[k].v1] == to) || (edges[k].v1 == v && uuids[edges[k].v0] == to))
  }

  // ---------------------------------------------------------------------------
  // Vertex deletion (`delete_vertices` with one vertex marked)
  // ---------------------------------------------------------------------------

  /** The new index of a kept vertex once vertex `i` is compacted away. */
  function Shift(x: nat, i: nat): nat
  {
    if x > i then x - 1 else x
  }

  predicate Incident(e: Edge, i: nat)
  {
    e.v0 == i || e.v1 == i
  }

  /** The edge array after deleting vertex `i`: its incident edges dropped, the other endpoints renumbered. */
  function DeleteVertex(edges: seq<Edge>, i: nat): (r: seq<Edge>)
    ensures |r| <= |edges|
    decreases |edges|
  {
    if edges == [] then []
    else DeleteVertex(edges[..|edges| - 1], i) + DeleteEdge(edges[|edges| - 1], i)
  }

  /** What deleting vertex `i` leaves of one edge: nothing if incident, else the edge renumbered. */
  function DeleteEdge(e: Edge, i: nat): seq<Edge>
  {
    if Incident(e, i) then [] else [Moved(e, i)]
  }

  /** An edge not incident to vertex `i`, with its endpoints renumbered. */
  function Moved(e: Edge, i: nat): Edge
  {
    Edge(Shift(e.v0, i), Shift(e.v1, i), e.relation)
  }

  /** The surviving edges are exactly the renumbered edges that were not incident to vertex `i`. */
  lemma {:induction false} DeleteVertexMembers(edges: seq<Edge>, i: nat)
    ensures forall e :: e in DeleteVertex(edges, i) ==> exists f :: f in edges && !Incident(f, i) && e == Moved(f, i)
    ensures forall f :: f in edges && !Incident(f, i) ==> Moved(f, i) in DeleteVertex(edges, i)
    decreases |edges|
  {
    if edges != [] {
      var n := |edges| - 1;
      var prefix, last := edges[..n], edges[n];
      DeleteVertexMembers(prefix, i);
      assert edges == prefix + [last];
      assert DeleteVertex(edges, i) == DeleteVertex(prefix, i) + DeleteEdge(last, i);
    }
  }

  /** Deletion works edge by edge, so it keeps the order of the surviving edges. */
  lemma {:induction false} DeleteVertexConcat(a: seq<Edge>, b: seq<Edge>, i: nat)
    ensures DeleteVertex(a + b, i) == DeleteVertex(a, i) + DeleteVertex(b, i)
    decreases |b|
  {
    if b == [] {
      assert a + b == a;
    } else {
      var n := |b| - 1;
      DropLastConcat(a, b);
      DeleteVertexConcat(a, b[..n], i);
    }
  }

  /** Dropping the last element of a concatenation with a non-empty right side. */
  lemma DropLastConcat<T>(a: seq<T>, b: seq<T>)
    requires b != []
    ensures (a + b)[..|a + b| - 1] == a + b[..|b| - 1]
    ensures (a + b)[|a + b| - 1] == b[|b| - 1]
  {
  }

  lemma DeleteVertexBelow(edges: seq<Edge>, n: nat, i: nat)
    requires EndpointsBelow(edges, n) && i < n
    ensures EndpointsBelow(DeleteVertex(edges, i), n - 1)
  {
    DeleteVertexMembers(edges, i);
  }

  /** The uuid column after deleting vertex `i`, compacted in order. */
  function RemoveAt(uuids: seq<Uuid>, i: nat): (r: seq<Uuid>)
    requires i < |uuids|
    ensures |r| == |uuids| - 1
    ensures forall x :: 0 <= x < |uuids| && x != i ==> r[Shift(x, i)] == uuids[x]
  {
    EraseAt(uuids, i)
  }

  /** `decrement_indices_larger_than(i)`: every stored index above `i` moves down by one. */
  function DecrementLarger(m: map<Uuid, nat>, i: nat): (r: map<Uuid, nat>)
    ensures r.Keys == m.Keys
    ensures forall c :: c in r ==> r[c] == Shift(m[c], i)
  {
    map c | c in m :: Shift(m[c], i)
  }

  /** `s` without any occurrence of `id`, order kept. */
  function WithoutUuid(s: seq<Uuid>, id: Uuid): (r: seq<Uuid>)
    ensures forall u :: u in r <==> u in s && u != id
  {
    if s == [] then [] else (if s[0] == id then [] else [s[0]]) + WithoutUuid(s[1..], id)
  }

  lemma {:induction false} WithoutUuidConcat(a: seq<Uuid>, b: seq<Uuid>, id: Uuid)
    ensures WithoutUuid(a + b, id) == WithoutUuid(a, id) + WithoutUuid(b, id)
  {
    if a == [] {
      assert a + b == b;
    } else {
      assert (a + b)[1..] == a[1..] + b;
      WithoutUuidConcat(a[1..], b, id);
    }
  }

  /** Every graph vertex is the registered vertex of the uuid it carries. */
  predicate IndexedBack(uuids: seq<Uuid>, m: map<Uuid, nat>)
  {
    forall x :: 0 <= x < |uuids| ==> uuids[x] in m && m[uuids[x]] == x
  }

  /** Every registered uuid is carried by its vertex. */
  predicate Stamped(uuids: seq<Uuid>, m: map<Uuid, nat>)
  {
    forall c :: c in m ==> m[c] < |uuids| && uuids[m[c]] == c
  }

  /** Only vertex `i` carries the uuid `id`. */
  predicate OnlyAt(uuids: seq<Uuid>, i: nat, id: Uuid)
  {
    i < |uuids| && uuids[i] == id && forall x :: 0 <= x < |uuids| && x != i ==> uuids[x] != id
  }

  lemma EdgeYieldAfterDelete(e: Edge, uuids: seq<Uuid>, i: nat, id: Uuid, v: nat, kind: RangeKind)
    requires OnlyAt(uuids, i, id) && e.v0 < |uuids| && e.v1 < |uuids| && v != i
    ensures !Incident(e, i) ==>
      EdgeYield(Edge(Shift(e.v0, i), Shift(e.v1, i), e.relation), RemoveAt(uuids, i), Shift(v, i), kind)
      == WithoutUuid(EdgeYield(e, uuids, v, kind), id)
    ensures Incident(e, i) ==> WithoutUuid(EdgeYield(e, uuids, v, kind), id) == []
  {
    if !Incident(e, i) {
      KeptEdgeYield(e, uuids, i, id, v, kind);
    } else {
      DroppedEdgeYield(e, uuids, i, id, v, kind);
    }
  }

  lemma KeptEdgeYield(e: Edge, uuids: seq<Uuid>, i: nat, id: Uuid, v: nat, kind: RangeKind)
    requires OnlyAt(uuids, i, id) && e.v0 < |uuids| && e.v1 < |uuids| && v != i && !Incident(e, i)
    ensures EdgeYield(Edge(Shift(e.v0, i), Shift(e.v1, i), e.relation), RemoveAt(uuids, i), Shift(v, i), kind)
      == WithoutUuid(EdgeYield(e, uuids, v, kind), id)
  {
    var y := EdgeYield(e, uuids, v, kind);
    var r := RemoveAt(uuids, i);
    var moved := Edge(Shift(e.v0, i), Shift(e.v1, i), e.relation);
    assert r[moved.v0] == uuids[e.v0] && r[moved.v1] == uuids[e.v1];
    ShiftInjective(e.v0, v, i);
    ShiftInjective(e.v1, v, i);
    assert EdgeYield(moved, r, Shift(v, i), kind) == y;
    assert forall u :: u in y ==> u == uuids[e.v0] || u == uuids[e.v1];
    WithoutUuidAbsent(y, id);
  }

  lemma ShiftInjective(x: nat, y: nat, i: nat)
    requires x != i && y != i
    ensures Shift(x, i) == Shift(y, i) <==> x == y
  {
  }

  lemma DroppedEdgeYield(e: Edge, uuids: seq<Uuid>, i: nat, id: Uuid, v: nat, kind: RangeKind)
    requires OnlyAt(uuids, i, id) && e.v0 < |uuids| && e.v1 < |uuids| && v != i && Incident(e, i)
    ensures WithoutUuid(EdgeYield(e, uuids, v, kind), id) == []
  {
    var y := EdgeYield(e, uuids, v, kind);
    assert forall u :: u in y ==> u == id;
    WithoutUuidOnly(y, id);
  }

  lemma {:induction false} WithoutUuidAbsent(s: seq<Uuid>, id: Uuid)
    requires forall u :: u in s ==> u != id
    ensures WithoutUuid(s, id) == s
  {
    if s != [] {
      assert s[0] in s;
      assert forall u :: u in s[1..] ==> u in s;
      WithoutUuidAbsent(s[1..], id);
      assert s == [s[0]] + s[1..];
    }
  }

  lemma {:induction false} WithoutUuidOnly(s: seq<Uuid>, id: Uuid)
    requires forall u :: u in s ==> u == id
    ensures WithoutUuid(s, id) == []
  {
    if s != [] {
      assert s[0] in s;
      assert forall u :: u in s[1..] ==> u in s;
      WithoutUuidOnly(s[1..], id);
    }
  }

  /**
   * `remove_component`: when only vertex `i` carries uuid `id`, every range of
   * every other component is its old range with `id` removed, order kept.
   */
  lemma {:induction false} RemoveVertexRange(edges: seq<Edge>, uuids: seq<Uuid>, i: nat, id: Uuid, v: nat, kind: RangeKind)
    requires EndpointsBelow(edges, |uuids|) && OnlyAt(uuids, i, id) && v < |uuids| && v != i
    ensures EndpointsBelow(DeleteVertex(edges, i), |RemoveAt(uuids, i)|)
    ensures Range(DeleteVertex(edges, i), RemoveAt(uuids, i), Shift(v, i), kind) == WithoutUuid(Range(edges, uuids, v, kind), id)
    decreases |edges|
  {
    DeleteVertexBelow(edges, |uuids|, i);
    RangeMatchesEdges(DeleteVertex(edges, i), RemoveAt(uuids, i), Shift(v, i), kind);
    RangeMatchesEdges(edges, uuids, v, kind);
    RemoveVertexByEdges(edges, uuids, i, id, v, kind);
  }

  lemma {:induction false} RemoveVertexByEdges(edges: seq<Edge>, uuids: seq<Uuid>, i: nat, id: Uuid, v: nat, kind: RangeKind)
    requires EndpointsBelow(edges, |uuids|) && OnlyAt(uuids, i, id) && v < |uuids| && v != i
    ensures EndpointsBelow(DeleteVertex(edges, i), |RemoveAt(uuids, i)|)
    ensures RangeByEdges(DeleteVertex(edges, i), RemoveAt(uuids, i), Shift(v, i), kind)
            == WithoutUuid(RangeByEdges(edges, uuids, v, kind), id)
    decreases |edges|
  {
    DeleteVertexBelow(edges, |uuids|, i);
    if edges != [] {
      var n := |edges| - 1;
      var prefix, last := edges[..n], edges[n];
      assert edges == prefix + [last];
      RangeByEdgesSnoc(prefix, last, uuids, v, kind);
      RemoveVertexByEdges(prefix, uuids, i, id, v, kind);
      RemoveVertexLast(prefix, last, uuids, i, id, v, kind);
    }
  }

  /** The induction step of `RemoveVertexByEdges`: one more edge at the end. */
  lemma RemoveVertexLast(prefix: seq<Edge>, last: Edge, uuids: seq<Uuid>, i: nat, id: Uuid, v: nat, kind: RangeKind)
    requires EndpointsBelow(prefix + [last], |uuids|) && OnlyAt(uuids, i, id) && v < |uuids| && v != i
    requires EndpointsBelow(prefix, |uuids|) && EndpointsBelow(DeleteVertex(prefix, i), |RemoveAt(uuids, i)|)
    requires RangeByEdges(DeleteVertex(prefix, i), RemoveAt(uuids, i), Shift(v, i), kind)
             == WithoutUuid(RangeByEdges(prefix, uuids, v, kind), id)
    ensures EndpointsBelow(DeleteVertex(prefix + [last], i), |RemoveAt(uuids, i)|)
    ensures RangeByEdges(DeleteVertex(prefix + [last], i), RemoveAt(uuids, i), Shift(v, i), kind)
            == WithoutUuid(RangeByEdges(prefix + [last], uuids, v, kind), id)
  {
    var edges := prefix + [last];
    DeleteVertexBelow(edges, |uuids|, i);
    RangeByEdgesSnoc(prefix, last, uuids, v, kind);
    EdgeYieldAfterDelete(last, uuids, i, id, v, kind);
    WithoutUuidConcat(RangeByEdges(prefix, uuids, v, kind), EdgeYield(last, uuids, v, kind), id);
    var kept := DeleteVertex(prefix, i);
    assert edges[..|edges| - 1] == prefix;
    assert DeleteVertex(edges, i) == kept + DeleteEdge(last, i);
    if !Incident(last, i) {
      RangeByEdgesSnoc(kept, Moved(last, i), RemoveAt(uuids, i), Shift(v, i), kind);
    } else {
      assert kept + DeleteEdge(last, i) == kept;
    }
  }

  /** The reference range of an edge list with one more edge at the end. */
  lemma RangeByEdgesSnoc(edges: seq<Edge>, e: Edge, uuids: seq<Uuid>, v: nat, kind: RangeKind)
    requires EndpointsBelow(edges + [e], |uuids|)
    ensures EndpointsBelow(edges, |uuids|) && e.v0 < |uuids| && e.v1 < |uuids|
    ensures RangeByEdges(edges + [e], uuids, v, kind) == RangeByEdges(edges, uuids, v, kind) + EdgeYield(e, uuids, v, kind)
  {
    assert e in edges + [e];
    assert forall f :: f in edges ==> f in edges + [e];
    assert (edges + [e])[..|edges|] == edges;
  }

  /** With the table a bijection, the removed component's vertex is the only one carrying its uuid. */
  lemma IndexedOnlyAt(uuids: seq<Uuid>, m: map<Uuid, nat>, id: Uuid)
    requires IndexedBack(uuids, m) && Stamped(uuids, m) && id in m
    ensures OnlyAt(uuids, m[id], id)
  {
    forall x | 0 <= x < |uuids| && x != m[id]
      ensures uuids[x] != id
    {
      assert m[uuids[x]] == x;
    }
  }

  /** `remove_component` keeps the table a bijection between the vertices and the registered uuids. */
  lemma RemoveKeepsIndexed(uuids: seq<Uuid>, m: map<Uuid, nat>, id: Uuid)
    requires IndexedBack(uuids, m) && Stamped(uuids, m) && id in m
    ensures IndexedBack(RemoveAt(uuids, m[id]), DecrementLarger(m - {id}, m[id]))
    ensures Stamped(RemoveAt(uuids, m[id]), DecrementLarger(m - {id}, m[id]))
  {
    var i := m[id];
    var r := RemoveAt(uuids, i);
    var n := DecrementLarger(m - {id}, i);
    forall y | 0 <= y < |r|
      ensures r[y] in n && n[r[y]] == y
    {
      var x := if y < i then y else y + 1;
      assert Shift(x, i) == y && r[y] == uuids[x];
      assert m[uuids[x]] == x;
    }
    forall c | c in n
      ensures n[c] < |r| && r[n[c]] == c
    {
      assert m[c] != i;
    }
  }

  /**
   * `remove_component` seen from a remaining component `c`: each of its ranges
   * loses exactly the removed uuid, with the order kept.
   */
  lemma RemoveComponentRange(edges: seq<Edge>, uuids: seq<Uuid>, m: map<Uuid, nat>, id: Uuid, c: Uuid, kind: RangeKind)
    requires EndpointsBelow(edges, |uuids|) && IndexedBack(uuids, m) && Stamped(uuids, m)
    requires id in m && c in m && c != id
    ensures EndpointsBelow(DeleteVertex(edges, m[id]), |RemoveAt(uuids, m[id])|)
    ensures Range(DeleteVertex(edges, m[id]), RemoveAt(uuids, m[id]), Shift(m[c], m[id]), kind)
            == WithoutUuid(Range(edges, uuids, m[c], kind), id)
  {
    IndexedOnlyAt(uuids, m, id);
    RemoveVertexRange(edges, uuids, m[id], id, m[c], kind);
  }

  // ---------------------------------------------------------------------------
  // The relation manager
  // ---------------------------------------------------------------------------

  /** One more edge vertex adds one to the length of a range exactly when it is accepted. */
  lemma FilteredStep(edges: seq<Edge>, uuids: seq<Uuid>, around: seq<EdgeVertex>, k: nat, kind: RangeKind)
    requires forall ev :: ev in around ==> ev.edge < |edges|
    requires EndpointsBelow(edges, |uuids|) && k < |around|
    ensures around[k].edge < |edges|
    ensures |Filtered(edges, uuids, around[..k + 1], kind)| ==
      |Filtered(edges, uuids, around[..k], kind)| + (if Accepts(kind, edges[around[k].edge].relation, around[k].slot) then 1 else 0)
  {
    assert around[k] in around;
    assert around[..k + 1] == around[..k] + [around[k]];
    FilteredConcat(edges, uuids, around[..k], [around[k]], kind);
  }

  /** The counting loop of the `nb_*` functions over the edge vertices `around`. */
  method CountFiltered(edges: seq<Edge>, uuids: seq<Uuid>, around: seq<EdgeVertex>, kind: RangeKind) returns (nb: nat)
    requires forall ev :: ev in around ==> ev.edge < |edges|
    requires EndpointsBelow(edges, |uuids|)
    ensures nb == |Filtered(edges, uuids, around, kind)|
  {
    nb := 0;
    var k := 0;
    while k < |around|
      invariant 0 <= k <= |around|
      invariant nb == |Filtered(edges, uuids, around[..k], kind)|
    {
      var ev := around[k];
      FilteredStep(edges, uuids, around, k, kind);
      if Accepts(kind, edges[ev.edge].relation, ev.slot) {
        nb := nb + 1;
      }
      k := k + 1;
    }
    assert around[..k] == around;
  }

  datatype RelationOutcome =
    | Added            // a new edge was created
    | AlreadyExists    // the duplicate check found the relation: only a warning is logged
    | UnknownComponent // `uuid2index_.index` on a uuid that is not registered

  class Relationships {
    /** The graph's edges with their `relation_type_` attribute. */
    var edges: seq<Edge>
    /** The `uuids_` vertex attribute: the component stamped on each graph vertex. */
    var uuids: seq<Uuid>
    /** `uuid2index_`: the graph vertex of each registered component. */
    var uuid2index: map<Uuid, nat>

    /** Edges join existing vertices, and every registered component's vertex carries its uuid. */
    ghost predicate Valid()
      reads this
    {
      EndpointsBelow(edges, |uuids|) && Stamped(uuids, uuid2index)
    }

    /** Moreover every vertex is the registered vertex of its uuid, so no two vertices share one. */
    ghost predicate Indexed()
      reads this
    {
      Valid() && IndexedBack(uuids, uuid2index)
    }

    constructor ()
      ensures Valid() && Indexed()
      ensures edges == [] && uuids == [] && uuid2index == map[]
    {
      edges := [];
      uuids := [];
      uuid2index := map[];
    }

    /** `add_component`: a new graph vertex stamped with `id`; `id` now maps to it. */
    method AddComponent(id: Uuid)
      requires Valid()
      modifies this
      ensures Valid()
      ensures old(Indexed()) && id !in old(uuid2index) ==> Indexed()
      ensures uuids == old(uuids) + [id]
      ensures uuid2index == old(uuid2index)[id := |old(uuids)|]
      ensures edges == old(edges)
    {
      var index := |uuids|;
      uuids := uuids + [id];
      uuid2index := uuid2index[id := index];
    }

    /**
     * `remove_component`: the vertex of `id` is deleted with its edges, the
     * later vertices are compacted, `id` leaves the table and the larger stored
     * indices are decremented. An unknown `id` changes nothing.
     */
    method RemoveComponent(id: Uuid) returns (known: bool)
      requires Valid()
      modifies this
      ensures Valid()
      ensures old(Indexed()) ==> Indexed()
      ensures known <==> id in old(uuid2index)
      ensures !known ==> edges == old(edges) && uuids == old(uuids) && uuid2index == old(uuid2index)
      ensures known ==>
        var i := old(uuid2index)[id];
        uuids == RemoveAt(old(uuids), i) &&
        edges == DeleteVertex(old(edges), i) &&
        uuid2index == DecrementLarger(old(uuid2index) - {id}, i)
      ensures known && old(Indexed()) ==> forall c, kind :: c in uuid2index ==>
        RangeOf(c, kind) == WithoutUuid(Range(old(edges), old(uuids), old(uuid2index)[c], kind), id)
    {
      if id !in uuid2index {
        return false;
      }
      var index := uuid2index[id];
      ghost var (edges0, uuids0, m0) := (edges, uuids, uuid2index);
      DeleteVertexBelow(edges, |uuids|, index);
      edges := DeleteVertex(edges, index);
      uuids := RemoveAt(uuids, index);
      uuid2index := DecrementLarger(uuid2index - {id}, index);
      known := true;
      forall c | c in uuid2index
        ensures uuid2index[c] < |uuids| && uuids[uuid2index[c]] == c
      {
        assert m0[c] != index;
      }
      if IndexedBack(uuids0, m0) {
        RemoveKeepsIndexed(uuids0, m0, id);
        forall c, kind | c in uuid2index
          ensures RangeOf(c, kind) == WithoutUuid(Range(edges0, uuids0, m0[c], kind), id)
        {
          RemoveComponentRange(edges0, uuids0, m0, id, c, kind);
        }
      }
    }

    /** `check_relation_exists`: the loop over the edges around `from` that reads the opposite endpoint. */
    method CheckRelationExists(from: Uuid, to: Uuid, t: nat) returns (found: bool)
      requires Valid() && from in uuid2index
      ensures found <==> Linked(edges, uuids, uuid2index[from], to, t)
    {
      var v := uuid2index[from];
      var around := EdgesAround(edges, v);
      var k := 0;
      while k < |around|
        invariant 0 <= k <= |around|
        invariant forall j :: 0 <= j < k ==>
          !(uuids[Endpoint(edges[around[j].edge], Opposite(around[j].slot))] == to && edges[around[j].edge].relation == t)
      {
        var ev := around[k];
        assert ev in around;
        var e := edges[ev.edge];
        assert e in edges;
        if uuids[Endpoint(e, Opposite(ev.slot))] == to && e.relation == t {
          return true;
        }
        k := k + 1;
      }
      found := false;
      forall j | 0 <= j < |edges| && edges[j].relation == t
        ensures !((edges[j].v0 == v && uuids[edges[j].v1] == to) || (edges[j].v1 == v && uuids[edges[j].v0] == to))
      {
        if edges[j].v0 == v {
          assert EdgeVertex(j, 0) in around;
        }
        if edges[j].v1 == v {
          assert EdgeVertex(j, 1) in around;
        }
      }
    }

    /**
     * `add_relation(from, to, t)`: nothing changes when the relation already
     * exists (in either orientation); otherwise one edge from `from` (slot 0)
     * to `to` (slot 1) of type `t` is appended.
     */
    method AddRelation(from: Uuid, to: Uuid, t: nat) returns (r: RelationOutcome)
      requires Valid()
      modifies this
      ensures Valid()
      ensures old(Indexed()) ==> Indexed()
      ensures uuids == old(uuids) && uuid2index == old(uuid2index)
      ensures from !in uuid2index ==> r == UnknownComponent && edges == old(edges)
      ensures from in uuid2index && Linked(old(edges), uuids, uuid2index[from], to, t) ==>
        r == AlreadyExists && edges == old(edges)
      ensures from in uuid2index && !Linked(old(edges), uuids, uuid2index[from], to, t) && to !in uuid2index ==>
        r == UnknownComponent && edges == old(edges)
      ensures from in uuid2index && !Linked(old(edges), uuids, uuid2index[from], to, t) && to in uuid2index ==>
        r == Added && edges == old(edges) + [Edge(uuid2index[from], uuid2index[to], t)]
    {
      if from !in uuid2index {
        return UnknownComponent;
      }
      var present := CheckRelationExists(from, to, t);
      if present {
        return AlreadyExists;
      }
      if to !in uuid2index {
        return UnknownComponent;
      }
      edges := edges + [Edge(uuid2index[from], uuid2index[to], t)];
      r := Added;
    }

    /** `add_boundary_relation(boundary, incidence)`. */
    method AddBoundaryRelation(boundary: Uuid, incidence: Uuid) returns (r: RelationOutcome)
      requires Valid()
      modifies this
      ensures Valid()
      ensures old(Indexed()) ==> Indexed()
      ensures uuids == old(uuids) && uuid2index == old(uuid2index)
      ensures r == Added ==>
        boundary in uuid2index && incidence in uuid2index &&
        edges == old(edges) + [Edge(uuid2index[boundary], uuid2index[incidence], BOUNDARY_RELATION)]
      ensures r != Added ==> edges == old(edges)
      ensures r == AlreadyExists <==> boundary in uuid2index && Linked(old(edges), uuids, uuid2index[boundary], incidence, BOUNDARY_RELATION)
    {
      r := AddRelation(boundary, incidence, BOUNDARY_RELATION);
    }

    /** `add_item_in_collection(item, collection)`. */
    method AddItemInCollection(item: Uuid, collection: Uuid) returns (r: RelationOutcome)
      requires Valid()
      modifies this
      ensures Valid()
      ensures old(Indexed()) ==> Indexed()
      ensures uuids == old(uuids) && uuid2index == old(uuid2index)
      ensures r == Added ==>
        item in uuid2index && collection in uuid2index &&
        edges == old(edges) + [Edge(uuid2index[item], uuid2index[collection], ITEM_RELATION)]
      ensures r != Added ==> edges == old(edges)
      ensures r == AlreadyExists <==> item in uuid2index && Linked(old(edges), uuids, uuid2index[item], collection, ITEM_RELATION)
    {
      r := AddRelation(item, collection, ITEM_RELATION);
    }

    /** `boundaries(id)`, `incidences(id)`, `items(id)`, `collections(id)`. */
    function RangeOf(id: Uuid, kind: RangeKind): (r: seq<Uuid>)
      reads this
      requires Valid() && id in uuid2index
      ensures r == RangeByEdges(edges, uuids, uuid2index[id], kind)
    {
      RangeMatchesEdges(edges, uuids, uuid2index[id], kind);
      Range(edges, uuids, uuid2index[id], kind)
    }

    /** The `nb_*` counters: one step per element the range iterator yields. */
    method CountRange(id: Uuid, kind: RangeKind) returns (nb: nat)
      requires Valid() && id in uuid2index
      ensures nb == |RangeOf(id, kind)|
    {
      nb := CountFiltered(edges, uuids, EdgesAround(edges, uuid2index[id]), kind);
    }
  }
}
