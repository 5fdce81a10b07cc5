# OpenGeode index bookkeeping, modelled in Dafny

This project models four small components of OpenGeode. Each one keeps tables of indices and
uuids consistent while entities are added and removed.

- **Vertex identity map** (`vertex_identifier.dfy`, module `VertexIdentity`). This is
  `VertexIdentifier::Impl`. Each unique vertex has a list of `(component, local vertex)` pairs.
  Each registered component has a column mapping its local vertices to unique vertices. The
  model covers:
  - registration and unregistration;
  - set, unset and renumbering of the lists;
  - the query filters.

  Two quirks are kept as written:
  - the registration guard tests the attribute `unique_vertices`, while the column it creates is
    `unique vertices`;
  - `unset_unique_vertex` leaves the component's column alone.

  `update_unique_vertices` looks up the first matching entry again at every step. The model
  renames entries the same way, so a list can come out in a different order (`RenumberedReorders`).
  What is proved about it is the multiset of entries, not their order.
- **Typed relation graph** (`relationships.dfy`, module `RelationGraph`). This is
  `Relationships::Impl`. Components are graph vertices carrying a uuid, and relations are edges
  tagged boundary or item. The slot the queried vertex holds on an edge decides which of the four
  ranges the edge belongs to: boundaries, incidences, items or collections. The graph itself is
  abstracted:
  - an edge is a pair of endpoints plus its relation type;
  - the edges around a vertex are listed in edge order, slot 0 before slot 1;
  - deleting a vertex drops its incident edges and compacts the higher indices.
- **Versioned envelope** (`bitsery_archive.dfy`, module `VersionedArchive`). This covers
  `DefaultGrowable` and `Growable`. An archive is a stream of tokens: a version tag, then a
  payload. The payload readers, writers and migration hooks are abstract functions.
- **Surface sub-view** (`surface_mesh_view.dfy`, module `SurfaceView`). This is
  `SurfaceMeshViewImpl`. The view keeps the mutually inverse maps `view2polygons` and
  `polygons2view`. It also keeps the vertex and edge sub-views, as sequences of original ids. It
  translates each polygon query into a query on the original surface, which is a read-only
  datatype.

`basic.dfy` (module `Basic`) holds the shared pieces:
- the 32-bit `index_t` bound and `NO_ID`;
- `Uuid` and `Option`;
- the sequence helpers that model `std::find` followed by `erase`.

Where the source throws from an `OPENGEODE_EXCEPTION` inside an operation that changes state, the
model mostly returns an error value (`Outcome`, `RelationOutcome`, `Construction`, `Option`). One
exception is `update_unique_vertices`. Its throw at `vertex_identifier.cpp:252-255` is replaced by a
`requires` under which it cannot fire (see "Left out"). Where a read-only lookup is bounds-checked
(or unchecked) and would throw (or be undefined), the model also puts the condition in a
`requires`.

## Model

| member | source | states |
|---|---|---|
| VertexIdentity.FoundOrCreated | src/geode/model/mixin/core/vertex_identifier.cpp:136-140 | the `unique vertices` column has one entry per mesh vertex: the existing column when there is one, otherwise all `NO_ID` |
| VertexIdentity.VerticesOfType | src/geode/model/mixin/core/vertex_identifier.cpp:54-69 | the result holds exactly the entries of the list whose component has the given type |
| VertexIdentity.VertexIndicesOf | src/geode/model/mixin/core/vertex_identifier.cpp:71-86 | the result is, position by position, the local vertex of each entry of the given component, in list order |
| VertexIdentity.HasVertexOfType | src/geode/model/mixin/core/vertex_identifier.cpp:94-107 | the early-return scan is true exactly when some entry of the list has the given component type |
| VertexIdentity.HasVertexOf | src/geode/model/mixin/core/vertex_identifier.cpp:109-122 | the early-return scan is true exactly when some entry of the list carries the given uuid |
| VertexIdentity.HasVertexOfTypeIffFilterNonEmpty | src/geode/model/mixin/core/vertex_identifier.cpp:94-107 | `has_mesh_component_vertices(uv, type)` is true iff the type filter is non-empty |
| VertexIdentity.HasVertexOfIffFilterNonEmpty | src/geode/model/mixin/core/vertex_identifier.cpp:109-122 | `has_mesh_component_vertices(uv, id)` is true iff the id filter is non-empty |
| VertexIdentity.VerticesOfTypeConcat | src/geode/model/mixin/core/vertex_identifier.cpp:54-69 | the type filter preserves order: filtering a concatenation concatenates the filtered parts |
| VertexIdentity.VertexIndicesOfConcat | src/geode/model/mixin/core/vertex_identifier.cpp:71-86 | the id filter preserves order in the same way |
| VertexIdentity.EntriesOf | src/geode/model/mixin/core/vertex_identifier.cpp:78-84 | exactly the entries of the list that belong to the component |
| VertexIdentity.WithoutComponent | src/geode/model/mixin/core/vertex_identifier.cpp:348-365 | exactly the entries of the list that do not belong to the component |
| VertexIdentity.EntriesOfConcat | src/geode/model/mixin/core/vertex_identifier.cpp:78-84 | the component's entries of a concatenation are the concatenation of its entries |
| VertexIdentity.WithoutComponentConcat | src/geode/model/mixin/core/vertex_identifier.cpp:348-365 | removing a component keeps the relative order of the remaining entries |
| VertexIdentity.WithoutAbsentComponent | src/geode/model/mixin/core/vertex_identifier.cpp:348-365 | removing a component that has no entry leaves the list unchanged |
| VertexIdentity.EntriesPartition | src/geode/model/mixin/core/vertex_identifier.cpp:348-365 | the entries of one component and the others together make up the whole list, as a multiset |
| VertexIdentity.Tagged | src/geode/model/mixin/core/vertex_identifier.cpp:245-247 | the pairs the inner loop of `update_unique_vertices` looks up: one per old index, in order |
| VertexIdentity.TaggedIndices | src/geode/model/mixin/core/vertex_identifier.cpp:245-247 | pairing the component with its local indices gives back exactly its entries |
| VertexIdentity.RenumberFirstSplit | src/geode/model/mixin/core/vertex_identifier.cpp:249-277 | one inner step changes only the first matching entry: it is dropped when the new index is `NO_ID`, else renamed in place |
| VertexIdentity.RenumberFirstMultiset | src/geode/model/mixin/core/vertex_identifier.cpp:249-277 | one inner step exchanges that entry for its renamed form (or for nothing), as a multiset |
| VertexIdentity.RenumberStep | src/geode/model/mixin/core/vertex_identifier.cpp:247-252 | the pair each later inner step looks up is still in the list, so the `it != end` check never fails |
| VertexIdentity.RenumberFirstKeepsOthers | src/geode/model/mixin/core/vertex_identifier.cpp:249-277 | one step leaves the entries of every other component, in order, untouched |
| VertexIdentity.RenumberFirstEntries | src/geode/model/mixin/core/vertex_identifier.cpp:249-277 | one step replaces the renamed entry among the component's entries, as a multiset |
| VertexIdentity.RenumberAllKeepsOthers | src/geode/model/mixin/core/vertex_identifier.cpp:247-277 | the whole inner loop leaves other components' entries, in order, untouched |
| VertexIdentity.RenumberAllEntries | src/geode/model/mixin/core/vertex_identifier.cpp:247-277 | the whole inner loop replaces each visited entry by its renamed form (or drops it for `NO_ID`), as a multiset |
| VertexIdentity.RenumberedKeepsOtherComponents | src/geode/model/mixin/core/vertex_identifier.cpp:238-280 | renumbering a component leaves every other component's entries in each list exactly as they were |
| VertexIdentity.RenumberedEntriesOfComponent | src/geode/model/mixin/core/vertex_identifier.cpp:238-280 | after renumbering, the component's entries are exactly the `old2new` images of its old entries, with the `NO_ID` ones removed (as a multiset) |
| VertexIdentity.RenumberedAbsent | src/geode/model/mixin/core/vertex_identifier.cpp:243-248 | a list without the component is left unchanged |
| VertexIdentity.RenumberedReorders | src/geode/model/mixin/core/vertex_identifier.cpp:249-251 | the first-match lookup reorders: `[(c,0),(c,1)]` with `old2new = [1,5]` becomes `[(c,5),(c,1)]` |
| VertexIdentity.CopyColumn | src/geode/model/mixin/core/vertex_identifier.cpp:148-160 | the re-registration copy keeps old values up to the first out-of-range index and keeps the earlier copies; it reports whether every index was copied |
| VertexIdentity.RenumberFirstEntry | src/geode/model/mixin/core/vertex_identifier.cpp:249-277 | one `modify_value` of the inner loop computes the single renumbering step |
| VertexIdentity.RenumberEntries | src/geode/model/mixin/core/vertex_identifier.cpp:245-278 | the inner loop of `update_unique_vertices` on one list computes the renumbered list |
| VertexIdentity.VertexIdentifier.constructor | src/geode/model/mixin/core/vertex_identifier.cpp:33-41 | no unique vertex and no registered component |
| VertexIdentity.VertexIdentifier.NbUniqueVertices | src/geode/model/mixin/core/vertex_identifier.cpp:43-46 | the number of unique vertices is the number of membership lists; `CreateUniqueVertex` adds one and `CreateUniqueVertices` adds `nb` |
| VertexIdentity.VertexIdentifier.UniqueVertex | src/geode/model/mixin/core/vertex_identifier.cpp:88-92 | the unique vertex of `(id, v)` is entry `v` of `id`'s column; after a passing `SetUniqueVertex(cv, u)` it is `u` |
| VertexIdentity.VertexIdentifier.CreateUniqueVertex | src/geode/model/mixin/core/vertex_identifier.cpp:175-179 | appends one empty list and returns its index |
| VertexIdentity.VertexIdentifier.CreateUniqueVertices | src/geode/model/mixin/core/vertex_identifier.cpp:181-185 | appends `nb` empty lists and returns the first new index |
| VertexIdentity.VertexIdentifier.RegisterComponent | src/geode/model/mixin/core/vertex_identifier.cpp:124-163 | a new component fails when the mesh has `unique_vertices`, else it maps to the found or created column; a known component copies its old values first; the mesh then carries `unique vertices` |
| VertexIdentity.VertexIdentifier.UnregisterComponent | src/geode/model/mixin/core/vertex_identifier.cpp:165-173 | the attribute is deleted, the component is no longer a key, and no list holds one of its entries; the others keep their order |
| VertexIdentity.VertexIdentifier.FilterComponentVertices | src/geode/model/mixin/core/vertex_identifier.cpp:342-367 | every list loses exactly the entries of the component and keeps the rest in order |
| VertexIdentity.VertexIdentifier.SetUniqueVertex | src/geode/model/mixin/core/vertex_identifier.cpp:187-218 | nothing changes when cv already maps to u; otherwise cv is first unset from its old list, the column holds u, and cv is appended to list u only if absent |
| VertexIdentity.VertexIdentifier.UnsetUniqueVertex | src/geode/model/mixin/core/vertex_identifier.cpp:220-236 | fails unless cv is in list u; otherwise it removes only the first occurrence, keeps the rest in order and leaves the columns alone |
| VertexIdentity.VertexIdentifier.ComponentUniqueVertices | src/geode/model/mixin/core/vertex_identifier.cpp:369-382 | in strictly ascending order, exactly the unique vertices with a non-empty filter for the id |
| VertexIdentity.VertexIdentifier.UpdateUniqueVertices | src/geode/model/mixin/core/vertex_identifier.cpp:238-280 | every list becomes its renumbered form, whose meaning the `Renumbered*` lemmas state; columns stay the same |
| RelationGraph.EdgesAround | src/geode/model/mixin/core/relationships.cpp:128-130 | the edge-vertex pairs around a vertex are exactly the slots of the edges where it sits |
| RelationGraph.Filtered | src/geode/model/mixin/core/relationships.cpp:353-362 | a range yields at most one uuid per edge around the vertex |
| RelationGraph.FilteredConcat | src/geode/model/mixin/core/relationships.cpp:353-362 | the skip loop is a filter: filtering a concatenation concatenates the filtered parts |
| RelationGraph.FilteredExtend | src/geode/model/mixin/core/relationships.cpp:151-154 | adding edges does not change what existing edge-vertex pairs yield |
| RelationGraph.FilteredSlots | src/geode/model/mixin/core/relationships.cpp:339-362 | one edge contributes through its slots exactly what the per-edge reference yields |
| RelationGraph.RangeMatchesEdges | src/geode/model/mixin/core/relationships.cpp:339-362 | each of the four ranges (also the skip loops at lines 423-446, 507-529 and 589-611) equals the reference definition: per edge, the opposite endpoint's uuid when the relation type and the vertex's slot match |
| RelationGraph.AppendEdgeRange | src/geode/model/mixin/core/relationships.cpp:151-154 | a new edge adds its own yield at the end of every range |
| RelationGraph.FreshBoundaryRelation | src/geode/model/mixin/core/relationships.cpp:263-268 | through the skip loops at lines 353-362 and 437-446, after adding boundary edge A to B: A is appended to `boundaries(B)`, B to `incidences(A)`, and `boundaries(A)`, `incidences(B)` are unchanged |
| RelationGraph.FreshItemRelation | src/geode/model/mixin/core/relationships.cpp:303-308 | through the skip loops at lines 521-529 and 603-611, after adding item I in collection C: I is appended to `items(C)`, C to `collections(I)`, and `items(I)`, `collections(C)` are unchanged |
| RelationGraph.DeleteVertex | src/geode/model/mixin/core/relationships.cpp:118-120 | deleting a vertex never adds edges |
| RelationGraph.DeleteVertexMembers | src/geode/model/mixin/core/relationships.cpp:118-120 | the surviving edges are exactly the edges not incident to the deleted vertex, with endpoints shifted down past it |
| RelationGraph.DeleteVertexConcat | src/geode/model/mixin/core/relationships.cpp:118-120 | deletion distributes over concatenation, so the surviving edges keep their order |
| RelationGraph.DeleteVertexBelow | src/geode/model/mixin/core/relationships.cpp:118-120 | after compaction every endpoint is below the new vertex count |
| RelationGraph.RemoveAt | src/geode/model/mixin/core/relationships.cpp:118-120 | the uuid column is compacted in order: vertex x moves to its shifted index |
| RelationGraph.DecrementLarger | src/geode/model/mixin/core/relationships.cpp:121-122 | same keys, and every stored index larger than the removed one is decremented |
| RelationGraph.WithoutUuid | src/geode/model/mixin/core/relationships.cpp:118-120 | exactly the uuids of the list other than the removed one |
| RelationGraph.WithoutUuidConcat | src/geode/model/mixin/core/relationships.cpp:118-120 | removing a uuid keeps the order of the others |
| RelationGraph.EdgeYieldAfterDelete | src/geode/model/mixin/core/relationships.cpp:115-123 | an edge kept by the deletion yields the same uuids at the shifted vertex, and a dropped edge yielded only the removed uuid |
| RelationGraph.WithoutUuidAbsent | src/geode/model/mixin/core/relationships.cpp:115-123 | removing an absent uuid changes nothing |
| RelationGraph.WithoutUuidOnly | src/geode/model/mixin/core/relationships.cpp:115-123 | a list made only of the removed uuid becomes empty |
| RelationGraph.RemoveVertexByEdges | src/geode/model/mixin/core/relationships.cpp:115-123 | by the reference definition, after `remove_component` every other component's range is its old range without the removed uuid |
| RelationGraph.IndexedOnlyAt | src/geode/model/mixin/core/relationships.cpp:108-113 | when the uuid table is a bijection, the vertex of a registered uuid is the only one carrying it |
| RelationGraph.RemoveKeepsIndexed | src/geode/model/mixin/core/relationships.cpp:115-123 | removal keeps the uuid table a bijection between the remaining vertices and the remaining uuids |
| RelationGraph.RemoveComponentRange | src/geode/model/mixin/core/relationships.cpp:115-123 | with a bijective table, every range of a remaining component is its old range without the removed uuid |
| RelationGraph.RemoveVertexRange | src/geode/model/mixin/core/relationships.cpp:115-123 | the same for the ranges as iterated: old range minus the removed uuid, order kept |
| RelationGraph.Relationships.constructor | src/geode/model/mixin/core/relationships.cpp:57-66 | an empty graph with no components |
| RelationGraph.Relationships.AddComponent | src/geode/model/mixin/core/relationships.cpp:108-113 | the new vertex index is the old count, `uuids[index] = id`, and id maps to index |
| RelationGraph.Relationships.RemoveComponent | src/geode/model/mixin/core/relationships.cpp:115-123 | deletes exactly id's vertex and its edges, compacts the uuids, removes id from the map and decrements larger indices; `uuids[index(c)] == c` still holds for every remaining c; when the table was a bijection it stays one, and every range of every remaining component loses exactly id |
| RelationGraph.Relationships.CheckRelationExists | src/geode/model/mixin/core/relationships.cpp:125-141 | true iff some edge of that type joins `from` and `to` in either direction |
| RelationGraph.Relationships.AddRelation | src/geode/model/mixin/core/relationships.cpp:143-155 | an existing relation (either direction) changes nothing; otherwise exactly one edge from `from` (slot 0) to `to` (slot 1) with type t is appended |
| RelationGraph.Relationships.AddBoundaryRelation | src/geode/model/mixin/core/relationships.cpp:263-268 | `add_relation` with the boundary type, the boundary at slot 0 |
| RelationGraph.Relationships.AddItemInCollection | src/geode/model/mixin/core/relationships.cpp:303-308 | `add_relation` with the item type, the item at slot 0 |
| RelationGraph.Relationships.RangeOf | src/geode/model/mixin/core/relationships.cpp:240-244 | `boundaries(id)` (and `incidences`, `items` and `collections` at lines 257-261, 281-285 and 297-301) yields the reference per-edge range of id's vertex |
| RelationGraph.CountFiltered | src/geode/model/mixin/core/relationships.cpp:229-238 | the counting loop over the edges around a vertex ends with the length of the filtered range |
| RelationGraph.Relationships.CountRange | src/geode/model/mixin/core/relationships.cpp:229-295 | each `nb_*` counter equals the length of the corresponding range |
| VersionedArchive.PreviousIndex | include/geode/basic/bitsery_archive.h:130 | unsigned `t - 1`: `t - 1` for t ≥ 1, and `0xFFFFFFFF` for t = 0 |
| VersionedArchive.DefaultRoundTrip | include/geode/basic/bitsery_archive.h:74-87 | `DefaultGrowable` writes tag 1 first, and reading back what it wrote restores the object |
| VersionedArchive.DefaultIgnoresTag | include/geode/basic/bitsery_archive.h:82-87 | `DefaultGrowable::deserialize` runs the caller's reader whatever 32-bit tag it reads |
| VersionedArchive.MakeGrowable | include/geode/basic/bitsery_archive.h:97-115 | construction fails iff fewer than 2 serializers, or initializers neither absent nor `version - 1` |
| VersionedArchive.SelectReader | include/geode/basic/bitsery_archive.h:130 | tag t selects reader `t - 1` when that index is in range, with the index wrapping for t = 0 |
| VersionedArchive.InitializerToRun | include/geode/basic/bitsery_archive.h:131-134 | a hook runs iff there are hooks and t < version, and it is hook `t - 1` |
| VersionedArchive.RoundTrip | include/geode/basic/bitsery_archive.h:118-135 | reading what `Growable::serialize` wrote selects the last reader, runs no hook and restores the object |
| VersionedArchive.OlderTagDispatch | include/geode/basic/bitsery_archive.h:125-135 | an older tag runs reader `t - 1`, then hook `t - 1` exactly once when there are hooks |
| VersionedArchive.CurrentTagDispatch | include/geode/basic/bitsery_archive.h:125-135 | the current tag runs the last reader and no hook |
| VersionedArchive.RejectedTags | include/geode/basic/bitsery_archive.h:129-130 | tag 0 and tags above the version are refused |
| VersionedArchive.OutputArchive.constructor | include/geode/basic/bitsery_archive.h:74-79 | an empty output stream |
| VersionedArchive.OutputArchive.Write | include/geode/basic/bitsery_archive.h:77-78 | appends to the stream |
| VersionedArchive.InputArchive.constructor | include/geode/basic/bitsery_archive.h:82-87 | the stream to read |
| VersionedArchive.DefaultSerialize | include/geode/basic/bitsery_archive.h:74-79 | appends tag 1 and the payload |
| VersionedArchive.DefaultDeserialize | include/geode/basic/bitsery_archive.h:82-87 | consumes one 32-bit tag and runs the caller's reader; a missing or wider tag fails |
| VersionedArchive.GrowableSerialize | include/geode/basic/bitsery_archive.h:118-123 | appends the version tag and the last serializer's payload; the passed function is ignored |
| VersionedArchive.GrowableDeserialize | include/geode/basic/bitsery_archive.h:125-135 | consumes the tag, runs the selected reader and then at most one hook, as `Decoded` states |
| SurfaceView.AddAll | include/geode/mesh/core/detail/surface_mesh_view_impl.h:164-176 | adding ids to a sub-view keeps the old ids in place, adds exactly the new ones, and never duplicates |
| SurfaceView.AddViewedAll | include/geode/mesh/core/detail/surface_mesh_view_impl.h:164-176 | the loops adding a polygon's vertices (or edges) add them in local order |
| SurfaceView.AddPolygonKeepsInvariant | include/geode/mesh/core/detail/surface_mesh_view_impl.h:154-179 | viewing a new polygon keeps the two polygon maps inverse and the polygon's vertices and edges in the view |
| SurfaceView.SurfaceMeshView.constructor | include/geode/mesh/core/detail/surface_mesh_view_impl.h:197-200 | an empty view of a surface |
| SurfaceView.SurfaceMeshView.ViewedPolygon | include/geode/mesh/core/detail/surface_mesh_view_impl.h:149-152 | the original polygon behind a view id, which `polygons2view` maps back to that id |
| SurfaceView.SurfaceMeshView.GetNbPolygonVertices | include/geode/mesh/core/detail/surface_mesh_view_impl.h:61-65 | the vertex count of the original polygon |
| SurfaceView.SurfaceMeshView.GetPolygonVertex | include/geode/mesh/core/detail/surface_mesh_view_impl.h:54-59 | through `viewed_polygon_vertex` (lines 182-187), a view vertex that stands for the original polygon's vertex |
| SurfaceView.SurfaceMeshView.GetPolygonEdge | include/geode/mesh/core/detail/surface_mesh_view_impl.h:142-147 | through `viewed_polygon_edge` (lines 189-194), a view edge that stands for the original polygon's edge |
| SurfaceView.SurfaceMeshView.GetPolygonAdjacent | include/geode/mesh/core/detail/surface_mesh_view_impl.h:127-140 | some view polygon iff the original neighbour exists and is viewed, and it is that neighbour's view id |
| SurfaceView.SurfaceMeshView.AddViewedPolygon | include/geode/mesh/core/detail/surface_mesh_view_impl.h:154-179 | a viewed polygon keeps its id and nothing changes; a new one gets the old polygon count as id, both maps learn it, and its vertices then edges join the view in local order |
| SurfaceView.SurfaceMeshView.GetPolygonAroundVertex | include/geode/mesh/core/detail/surface_mesh_view_impl.h:67-96 | none without a polygon; else the default corner if its polygon is viewed; else the first viewed corner around the vertex, or none; the local index is kept |
| SurfaceView.SurfaceMeshView.AdjoinsIffHasVertex | include/geode/mesh/core/detail/surface_mesh_view_impl.h:105-121 | the check of the inner loop holds exactly when the second vertex is any vertex of the polygon |
| SurfaceView.SurfaceMeshView.DiagonalCountsAsAdjoining | include/geode/mesh/core/detail/surface_mesh_view_impl.h:105-121 | in a quadrangle `a, x, b, y`, b counts as adjoining although neither neighbour of a is b |
| SurfaceView.SurfaceMeshView.GetIsolatedEdge | include/geode/mesh/core/detail/surface_mesh_view_impl.h:98-125 | false iff some polygon around the first vertex has the second vertex as the next or previous of one of its vertices |
| SurfaceView.SurfaceMeshView.GetIsolatedEdgeAtCorners | include/geode/mesh/core/detail/surface_mesh_view_impl.h:98-125 | the corner-based check: false iff at some corner of the first vertex the next or previous vertex is the second one |

## Left out

- `save`/`load`, file streams, bitsery contexts and `serialize(Archive&)` of both `Impl`s are I/O and are not modelled.
- `Logger::warn` calls are side effects only. They are no-ops here. A relation that already exists is reported as `AlreadyExists`.
- Several collaborators are not shown in the source: `OpenGeodeGraph`, `OpenGeodeVertexSet`, `AttributeManager`/`VariableAttribute`, `detail::UuidToIndex` and `EdgesViewImpl`. They appear only through abstract states:
  - a graph is a sequence of edges;
  - a vertex set is the count of lists;
  - an attribute is a `seq`;
  - the uuid table is a `map`;
  - a vertex or edge sub-view is a sequence of original ids, extended with `add_viewed_vertex`/`add_viewed_edge` only for ids not yet viewed.
- The order of `edges_around_vertex` comes from the graph, which is not shown. The model lists the edges in creation order, slot 0 before slot 1.
- AddComponent: `UuidToIndex::set_new_mapping` is not part of this model. The model assumes it overwrites the mapping of an id that is already registered. On such an id the old vertex keeps carrying the uuid, so the table stops being a bijection (`Indexed`). `AddComponent` therefore keeps `Indexed` only for a fresh id, and `RemoveComponent` promises the range property only while `Indexed` holds. `Valid`, the weaker invariant, holds in every case.
- `delete_vertices` is assumed to keep the remaining vertices in order and to drop every incident edge. Under that assumption the model proves `uuids[index(c)] == c` after `remove_component`.
- Aliasing is not modelled. The `unique vertices` column is shared between the mesh and the identifier, and the model keeps it as a value. `RegisterComponent` keeps it in the identifier's map and in the returned mesh, and `UnregisterComponent` deletes it from the returned mesh.
- The byte layout of the tag (`CompactValue`) and the bitsery extensions are not modelled. A tag is one integer token. In both `DefaultGrowable` and `Growable`, a stream that holds no tag, or a tag token that is not a 32-bit value, reads as failure. The source reads the tag into an `index_t`, so it never sees a wider one.
- The `nb_*` counters are `index_t` in the source. `CountRange` counts without 32-bit wrap-around, because a range never exceeds the number of edges.
- Several read-only queries in the source throw from `.at` or read out of range on a bad id. The model states those conditions as `requires` instead:
  - `mesh_component_vertices` and `unique_vertex` on an unknown id;
  - the relation ranges on an unknown uuid;
  - the view getters on an id that is not viewed.
- SetUniqueVertex: an exception thrown part-way through is modelled as a `Fail` result, together with the state the source has reached at that point. For example, when `u` is out of range, the column already holds `u`.
- UpdateUniqueVertices: the throw at `vertex_identifier.cpp:252-255` is not modelled as an error value. It is replaced by a `requires` (`Renumberable`) under which the lookup always succeeds (`RenumberStep`), so the partial update the source leaves behind when it throws is not captured. The `requires` asks two things. First, every entry that carries the updated component's uuid must carry its full `ComponentID` (type and uuid); entries of other uuids are unconstrained. Second, every local index of that component must be below `|old2new|`, because the source reads `old2new[old_id]` unchecked.
- `UpdateUniqueVertices`: the properties are stated as multisets, without the order of entries, because the first-match lookup can reorder entries.
- `GetIsolatedEdge` takes the polygons around the edge's first vertex as a parameter. The view's `edge_vertices` and `polygons_around_vertex` are generic mesh code that is not shown. The next and previous corners are `(v + 1) % n` and `(v + n - 1) % n`.
- Explicit template instantiations and the range copy and move constructors are C++ plumbing and are not modelled.

## Findings

| source | as written | input that shows it | evidently intended | confidence | as-written member | corrected member |
|---|---|---|---|---|---|---|
| include/geode/mesh/core/detail/surface_mesh_view_impl.h:105-121 | the inner loop ranges over every local vertex `v` of each polygon around the first vertex `a`, not over `a`'s own corner, so any polygon around `a` that contains `b` makes the edge non-isolated | a view where `polygons_around_vertex(a)` returns a viewed quadrangle `a, x, b, y` but not the viewed polygon that has `a`–`b` as a side, for example because an unviewed polygon breaks the fan around `a` between them, or because `a` is non-manifold. `get_isolated_edge` then returns false through the diagonal, while the corner check returns true. View edges come only from viewed polygons (lines 154-179), so whenever the walk around `a` reaches the polygon that has the edge as a side, the two checks agree. | test only the neighbours of the corner at `a` (`polygon_vertex.vertex_id`) | low, not executed | SurfaceView.SurfaceMeshView.DiagonalCountsAsAdjoining | SurfaceView.SurfaceMeshView.GetIsolatedEdgeAtCorners |
