/**
 * A sub-view of a surface mesh (`SurfaceMeshViewImpl`).
 *
 * The view holds some polygons of an original surface under new, dense ids.
 * It keeps `view2polygons` (view id -> original polygon) and `polygons2view`
 * (original polygon -> view id), and it translates every polygon query into
 * a query on the original surface. The vertex and edge sub-views it extends
 * are abstracted as two sequences of original ids, extended on demand.
 */
module SurfaceView {
  import opened Basic

  /** A corner of a polygon: the polygon and the local vertex (or edge) index. */
  datatype PolygonVertex = PolygonVertex(polygon: nat, vertex: nat)

  /** The original surface, as the view reads it. */
  datatype Surface = Surface(
    nbVertices: nat,
    /** `polygon_vertex`: per polygon, its vertices in local order. */
    polygonVertices: seq<seq<nat>>,
    /** `polygon_edge`: per polygon, its edges in local order. */
    polygonEdges: seq<seq<nat>>,
    /** `polygon_adjacent`: per polygon and local edge, the polygon across it. */
    adjacents: seq<seq<Option<nat>>>,
    /** `polygon_around_vertex`: per vertex, its default polygon corner. */
    polygonAroundVertex: seq<Option<PolygonVertex>>,
    /** `polygons_around_vertex`: per vertex, the corners around it. */
    polygonsAroundVertex: seq<seq<PolygonVertex>>)

  predicate Corner(s: Surface, pv: PolygonVertex)
  {
    pv.polygon < |s.polygonVertices| && pv.vertex < |s.polygonVertices[pv.polygon]|
  }

  /** The shape invariants of a surface mesh the view relies on. */
  predicate SurfaceWellFormed(s: Surface)
  {
    |s.polygonEdges| == |s.polygonVertices| && |s.adjacents| == |s.polygonVertices| &&
    |s.polygonAroundVertex| == s.nbVertices && |s.polygonsAroundVertex| == s.nbVertices &&
    (forall p :: 0 <= p < |s.polygonVertices| ==>
       |s.polygonEdges[p]| == |s.polygonVertices[p]| && |s.adjacents[p]| == |s.polygonVertices[p]| &&
       (forall v :: v in s.polygonVertices[p] ==> v < s.nbVertices) &&
       (forall a :: a in s.adjacents[p] && a.Some? ==> a.value < |s.polygonVertices|)) &&
    (forall v :: 0 <= v < s.nbVertices && s.polygonAroundVertex[v].Some? ==> Corner(s, s.polygonAroundVertex[v].value)) &&
    (forall v :: 0 <= v < s.nbVertices ==> forall pv :: pv in s.polygonsAroundVertex[v] ==> Corner(s, pv))
  }

  /** `add_viewed_vertex` (or `add_viewed_edge`) for each of `xs` in order: ids not yet viewed are appended. */
  function AddAll(viewed: seq<nat>, xs: seq<nat>): (r: seq<nat>)
    ensures viewed <= r
    ensures forall x :: x in r <==> x in viewed || x in xs
    ensures NoDuplicates(viewed) ==> NoDuplicates(r)
    decreases |xs|
  {
    if xs == [] then viewed
    else AppendIfAbsent(AddAll(viewed, xs[..|xs| - 1]), xs[|xs| - 1])
  }

  /**
   * The two polygon maps are mutually inverse, and every viewed polygon has
   * its vertices and edges in the view.
   */
  ghost predicate ViewInvariant(surface: Surface, view2polygons: seq<nat>, polygons2view: map<nat, nat>,
                                viewVertices: seq<nat>, viewEdges: seq<nat>)
  {
    SurfaceWellFormed(surface) &&
    NoDuplicates(viewVertices) && NoDuplicates(viewEdges) &&
    (forall v :: v in viewVertices ==> v < surface.nbVertices) &&
    (forall p :: p in polygons2view ==>
       p < |surface.polygonVertices| && polygons2view[p] < |view2polygons| && view2polygons[polygons2view[p]] == p) &&
    (forall id :: 0 <= id < |view2polygons| ==>
       view2polygons[id] in polygons2view && polygons2view[view2polygons[id]] == id) &&
    (forall p :: p in polygons2view ==>
       (forall v :: v in surface.polygonVertices[p] ==> v in viewVertices) &&
       (forall e :: e in surface.polygonEdges[p] ==> e in viewEdges))
  }

  /** Viewing a new polygon, with its vertices and edges, keeps the invariant. */
  lemma AddPolygonKeepsInvariant(surface: Surface, view2polygons: seq<nat>, polygons2view: map<nat, nat>,
                                 viewVertices: seq<nat>, viewEdges: seq<nat>, p: nat)
    requires ViewInvariant(surface, view2polygons, polygons2view, viewVertices, viewEdges)
    requires p < |surface.polygonVertices| && p !in polygons2view
    ensures ViewInvariant(surface, view2polygons + [p], polygons2view[p := |view2polygons|],
                          AddAll(viewVertices, surface.polygonVertices[p]), AddAll(viewEdges, surface.polygonEdges[p]))
  {
    var vs := AddAll(viewVertices, surface.polygonVertices[p]);
    forall v | v in vs
      ensures v < surface.nbVertices
    {
      if v !in viewVertices {
        assert v in surface.polygonVertices[p];
      }
    }
  }

  /** The loop of `add_viewed_polygon` that adds each id of `xs` to a sub-view, in order. */
  method AddViewedAll(viewed: seq<nat>, xs: seq<nat>) returns (r: seq<nat>)
    ensures r == AddAll(viewed, xs)
  {
    r := viewed;
    var i := 0;
    while i < |xs|
      invariant 0 <= i <= |xs|
      invariant r == AddAll(viewed, xs[..i])
    {
      assert xs[..i + 1][..i] == xs[..i];
      r := AppendIfAbsent(r, xs[i]);
      i := i + 1;
    }
    assert xs[..i] == xs;
  }

  /** The next and previous local indices of `v` in an `n`-gon. */
  lemma CyclicNeighbours(v: nat, n: nat)
    requires v < n
    ensures (v + 1) % n == if v + 1 == n then 0 else v + 1
    ensures (v + n - 1) % n == if v == 0 then n - 1 else v - 1
  {
  }

  class SurfaceMeshView {
    /** The original surface. */
    const surface: Surface
    /** The `view2polygons` polygon attribute of the view. */
    var view2polygons: seq<nat>
    /** `polygons2view_`. */
    var polygons2view: map<nat, nat>
    /** The vertex sub-view: view vertex -> original vertex. */
    var viewVertices: seq<nat>
    /** The edge sub-view: view edge -> original edge. */
    var viewEdges: seq<nat>

    /**
     * The two polygon maps are mutually inverse, and every viewed polygon has
     * its vertices and edges in the view.
     */
    ghost predicate Valid()
      reads this
    {
      ViewInvariant(surface, view2polygons, polygons2view, viewVertices, viewEdges)
    }

    constructor (s: Surface)
      requires SurfaceWellFormed(s)
      ensures Valid()
      ensures surface == s && view2polygons == [] && polygons2view == map[] && viewVertices == [] && viewEdges == []
    {
      surface := s;
      view2polygons := [];
      polygons2view := map[];
      viewVertices := [];
      viewEdges := [];
    }

    /** `viewed_polygon(id)`: the original polygon behind view polygon `id`. */
    function ViewedPolygon(id: nat): (p: nat)
      reads this
      requires Valid() && id < |view2polygons|
      ensures p < |surface.polygonVertices| && p in polygons2view && polygons2view[p] == id
    {
      view2polygons[id]
    }

    /** `get_nb_polygon_vertices(id)`: the vertex count of the original polygon. */
    function GetNbPolygonVertices(id: nat): (n: nat)
      reads this
      requires Valid() && id < |view2polygons|
      ensures n == |surface.polygonVertices[ViewedPolygon(id)]|
    {
      |surface.polygonVertices[view2polygons[id]]|
    }

    /** `get_polygon_vertex`: the view vertex standing for the original polygon's vertex. */
    function GetPolygonVertex(pv: PolygonVertex): (v: nat)
      reads this
      requires Valid() && pv.polygon < |view2polygons| && pv.vertex < GetNbPolygonVertices(pv.polygon)
      ensures v < |viewVertices| && viewVertices[v] == surface.polygonVertices[ViewedPolygon(pv.polygon)][pv.vertex]
    {
      var original := surface.polygonVertices[view2polygons[pv.polygon]][pv.vertex];
      FirstIndex(viewVertices, original)
    }

    /** `get_polygon_edge`: the view edge standing for the original polygon's edge. */
    function GetPolygonEdge(pe: PolygonVertex): (e: nat)
      reads this
      requires Valid() && pe.polygon < |view2polygons| && pe.vertex < GetNbPolygonVertices(pe.polygon)
      ensures e < |viewEdges| && viewEdges[e] == surface.polygonEdges[ViewedPolygon(pe.polygon)][pe.vertex]
    {
      var original := surface.polygonEdges[view2polygons[pe.polygon]][pe.vertex];
      FirstIndex(viewEdges, original)
    }

    /** `get_polygon_adjacent`: the view polygon across an edge, when the original neighbour is viewed. */
    function GetPolygonAdjacent(pe: PolygonVertex): (r: Option<nat>)
      reads this
      requires Valid() && pe.polygon < |view2polygons| && pe.vertex < GetNbPolygonVertices(pe.polygon)
      ensures var adjacent := surface.adjacents[ViewedPolygon(pe.polygon)][pe.vertex];
        (r.Some? <==> adjacent.Some? && adjacent.value in polygons2view) &&
        (r.Some? ==> r.value < |view2polygons| && ViewedPolygon(r.value) == adjacent.value)
    {
      var adjacent := surface.adjacents[view2polygons[pe.polygon]][pe.vertex];
      if adjacent.Some? && adjacent.value in polygons2view then Some(polygons2view[adjacent.value]) else None
    }

    /**
     * `add_viewed_polygon(p)`: a polygon already in the view keeps its id and
     * nothing changes. A new one gets the next id, both maps learn it, and
     * its vertices, then its edges, are added to the view in local order.
     */
    method AddViewedPolygon(p: nat) returns (id: nat)
      requires Valid() && p < |surface.polygonVertices|
      modifies this
      ensures Valid()
      ensures p in old(polygons2view) ==>
        id == old(polygons2view)[p] &&
        view2polygons == old(view2polygons) && polygons2view == old(polygons2view) &&
        viewVertices == old(viewVertices) && viewEdges == old(viewEdges)
      ensures p !in old(polygons2view) ==>
        id == |old(view2polygons)| &&
        view2polygons == old(view2polygons) + [p] &&
        polygons2view == old(polygons2view)[p := id] &&
        viewVertices == AddAll(old(viewVertices), surface.polygonVertices[p]) &&
        viewEdges == AddAll(old(viewEdges), surface.polygonEdges[p])
      ensures id < |view2polygons| && ViewedPolygon(id) == p
    {
      var viewId := |view2polygons|;
      if p in polygons2view {
        return polygons2view[p];
      }
      AddPolygonKeepsInvariant(surface, view2polygons, polygons2view, viewVertices, viewEdges, p);
      polygons2view := polygons2view[p := viewId];
      view2polygons := view2polygons + [NO_ID];
      view2polygons := view2polygons[viewId := p];
      assert view2polygons == old(view2polygons) + [p];
      viewVertices := AddViewedAll(viewVertices, surface.polygonVertices[p]);
      viewEdges := AddViewedAll(viewEdges, surface.polygonEdges[p]);
      id := polygons2view[p];
    }

    /**
     * `get_polygon_around_vertex(v)`: none when the original vertex has no
     * polygon; its default corner when that polygon is viewed; otherwise the
     * first viewed corner around the vertex, in the surface's order. The local
     * vertex index is kept.
     */
    method GetPolygonAroundVertex(vertex: nat) returns (r: Option<PolygonVertex>)
      requires Valid() && vertex < |viewVertices|
      ensures var original := viewVertices[vertex];
        original < surface.nbVertices &&
        var default := surface.polygonAroundVertex[original];
        var around := surface.polygonsAroundVertex[original];
        (default.None? ==> r.None?) &&
        (default.Some? && default.value.polygon in polygons2view ==>
           r == Some(PolygonVertex(polygons2view[default.value.polygon], default.value.vertex))) &&
        (default.Some? && default.value.polygon !in polygons2view ==>
           (r.None? <==> forall k :: 0 <= k < |around| ==> around[k].polygon !in polygons2view) &&
           (r.Some? ==>
              exists k :: 0 <= k < |around| && around[k].polygon in polygons2view &&
                (forall j :: 0 <= j < k ==> around[j].polygon !in polygons2view) &&
                r.value == PolygonVertex(polygons2view[around[k].polygon], around[k].vertex)))
    {
      var original := viewVertices[vertex];
      assert original in viewVertices;
      var default := surface.polygonAroundVertex[original];
      if default.None? {
        return None;
      }
      if default.value.polygon in polygons2view {
        return Some(PolygonVertex(polygons2view[default.value.polygon], default.value.vertex));
      }
      var around := surface.polygonsAroundVertex[original];
      var k := 0;
      while k < |around|
        invariant 0 <= k <= |around|
        invariant forall j :: 0 <= j < k ==> around[j].polygon !in polygons2view
      {
        if around[k].polygon in polygons2view {
          return Some(PolygonVertex(polygons2view[around[k].polygon], around[k].vertex));
        }
        k := k + 1;
      }
      r := None;
    }

    /** The vertex after or before local vertex `v` of view polygon `polygon` is `b`. */
    ghost predicate NeighbourIs(polygon: nat, v: nat, b: nat)
      reads this
      requires Valid() && polygon < |view2polygons| && v < GetNbPolygonVertices(polygon)
    {
      var n := GetNbPolygonVertices(polygon);
      GetPolygonVertex(PolygonVertex(polygon, (v + 1) % n)) == b ||
      GetPolygonVertex(PolygonVertex(polygon, (v + n - 1) % n)) == b
    }

    /** View vertex `b` follows or precedes some vertex of view polygon `polygon`. */
    ghost predicate Adjoins(polygon: nat, b: nat)
      reads this
      requires Valid() && polygon < |view2polygons|
    {
      exists v :: 0 <= v < GetNbPolygonVertices(polygon) && NeighbourIs(polygon, v, b)
    }

    /** View vertex `b` is one of the vertices of view polygon `polygon`. */
    ghost predicate HasVertex(polygon: nat, b: nat)
      reads this
      requires Valid() && polygon < |view2polygons|
    {
      exists w :: 0 <= w < GetNbPolygonVertices(polygon) && GetPolygonVertex(PolygonVertex(polygon, w)) == b
    }

    /**
     * Since every local vertex is the next (and the previous) of another one,
     * `b` follows or precedes some vertex of a polygon exactly when it is a
     * vertex of that polygon.
     */
    lemma AdjoinsIffHasVertex(polygon: nat, b: nat)
      requires Valid() && polygon < |view2polygons|
      ensures Adjoins(polygon, b) <==> HasVertex(polygon, b)
    {
      if Adjoins(polygon, b) {
        AdjoinsHasVertex(polygon, b);
      }
      if HasVertex(polygon, b) {
        HasVertexAdjoins(polygon, b);
      }
    }

    lemma AdjoinsHasVertex(polygon: nat, b: nat)
      requires Valid() && polygon < |view2polygons| && Adjoins(polygon, b)
      ensures HasVertex(polygon, b)
    {
      var n := GetNbPolygonVertices(polygon);
      var v :| 0 <= v < n && NeighbourIs(polygon, v, b);
      CyclicNeighbours(v, n);
    }

    lemma HasVertexAdjoins(polygon: nat, b: nat)
      requires Valid() && polygon < |view2polygons| && HasVertex(polygon, b)
      ensures Adjoins(polygon, b)
    {
      var n := GetNbPolygonVertices(polygon);
      var w :| 0 <= w < n && GetPolygonVertex(PolygonVertex(polygon, w)) == b;
      var v := if w == 0 then n - 1 else w - 1;
      CyclicNeighbours(v, n);
      assert NeighbourIs(polygon, v, b);
    }

    /**
     * A quadrangle `a, x, b, y` around `a`: `b` counts as adjoining although
     * neither neighbour of the corner at `a` is `b`, so the diagonal edge from
     * `a` to `b` is reported as used by the polygon.
     */
    lemma DiagonalCountsAsAdjoining(polygon: nat, b: nat)
      requires Valid() && polygon < |view2polygons| && GetNbPolygonVertices(polygon) == 4
      requires GetPolygonVertex(PolygonVertex(polygon, 2)) == b
      requires GetPolygonVertex(PolygonVertex(polygon, 1)) != b && GetPolygonVertex(PolygonVertex(polygon, 3)) != b
      ensures Adjoins(polygon, b) && !NeighbourIs(polygon, 0, b)
    {
      assert NeighbourIs(polygon, 1, b);
    }

    /**
     * `get_isolated_edge`: for the edge from view vertex `a` to view vertex
     * `b`, given the view corners `around` around `a`, the edge is isolated
     * exactly when no polygon of those corners has `b` as the next or the
     * previous vertex of one of its vertices.
     */
    method GetIsolatedEdge(b: nat, around: seq<PolygonVertex>) returns (isolated: bool)
      requires Valid() && forall pv :: pv in around ==> pv.polygon < |view2polygons|
      ensures isolated <==> forall k :: 0 <= k < |around| ==> !Adjoins(around[k].polygon, b)
    {
      var k := 0;
      while k < |around|
        invariant 0 <= k <= |around|
        invariant forall j :: 0 <= j < k ==> !Adjoins(around[j].polygon, b)
      {
        assert around[k] in around;
        var polygon := around[k].polygon;
        var n := GetNbPolygonVertices(polygon);
        var v := 0;
        while v < n
          invariant 0 <= v <= n
          invariant forall w :: 0 <= w < v ==> !NeighbourIs(polygon, w, b)
        {
          if GetPolygonVertex(PolygonVertex(polygon, (v + 1) % n)) == b {
            assert NeighbourIs(polygon, v, b);
            return false;
          }
          if GetPolygonVertex(PolygonVertex(polygon, (v + n - 1) % n)) == b {
            assert NeighbourIs(polygon, v, b);
            return false;
          }
          v := v + 1;
        }
        k := k + 1;
      }
      isolated := true;
    }

    /**
     * The check `get_isolated_edge` evidently intends: the edge from `a` to
     * `b` is isolated exactly when, at no corner of `a`, the next or the
     * previous vertex is `b`.
     */
    method GetIsolatedEdgeAtCorners(b: nat, around: seq<PolygonVertex>) returns (isolated: bool)
      requires Valid()
      requires forall pv :: pv in around ==> pv.polygon < |view2polygons| && pv.vertex < GetNbPolygonVertices(pv.polygon)
      ensures isolated <==> forall k :: 0 <= k < |around| ==> !NeighbourIs(around[k].polygon, around[k].vertex, b)
    {
      var k := 0;
      while k < |around|
        invariant 0 <= k <= |around|
        invariant forall j :: 0 <= j < k ==> !NeighbourIs(around[j].polygon, around[j].vertex, b)
      {
        assert around[k] in around;
        var corner := around[k];
        var n := GetNbPolygonVertices(corner.polygon);
        if GetPolygonVertex(PolygonVertex(corner.polygon, (corner.vertex + 1) % n)) == b {
          return false;
        }
        if GetPolygonVertex(PolygonVertex(corner.polygon, (corner.vertex + n - 1) % n)) == b {
          return false;
        }
        k := k + 1;
      }
      isolated := true;
    }
  }
}
