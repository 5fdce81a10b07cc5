/**
 * The cross-component vertex identity map (`VertexIdentifier::Impl`).
 *
 * Every unique vertex owns an ordered list of (component, local vertex) pairs,
 * and every registered component owns a column that maps each of its local
 * vertices to a unique vertex (or NO_ID).
 */
module VertexIdentity {
  import opened Basic

  datatype ComponentType = ComponentType(name: string)
  datatype ComponentID = ComponentID(componentType: ComponentType, id: Uuid)
  datatype MeshComponentVertex = MeshComponentVertex(component: ComponentID, vertex: nat)

  /** The attribute name the first-registration guard tests. */
  const GUARDED_ATTRIBUTE: string := "unique_vertices"
  /** The attribute name registration actually creates and unregistration deletes. */
  const UNIQUE_VERTICES: string := "unique vertices"

  datatype Error =
    | AttributeAlreadyExists  // the first-registration guard fired
    | UnknownComponent        // `vertex2unique_vertex_.at(id)` on an unregistered component
    | VertexOutOfRange        // a bounds-checked read of a component column
    | UniqueVertexOutOfRange  // a bounds-checked read of `component_vertices_`
    | UniqueVertexNotCorrect  // `unset_unique_vertex` did not find the entry

  datatype Outcome = Pass | Fail(error: Error)

  /**
   * The vertex attribute store of a component's mesh as registration sees it:
   * the vertex count and the index-valued attributes by name.
   */
  datatype MeshVertices = MeshVertices(nbVertices: nat, attributes: map<string, seq<nat>>)

  /** Every attribute column of a store has one value per element. */
  predicate MeshWellFormed(mesh: MeshVertices)
  {
    forall name :: name in mesh.attributes ==> |mesh.attributes[name]| == mesh.nbVertices
  }

  /** `find_or_create_attribute(UNIQUE_VERTICES, NO_ID)`: the existing column, or a fresh one filled with NO_ID. */
  function FoundOrCreated(mesh: MeshVertices): (column: seq<nat>)
    requires MeshWellFormed(mesh)
    ensures |column| == mesh.nbVertices
    ensures UNIQUE_VERTICES in mesh.attributes ==> column == mesh.attributes[UNIQUE_VERTICES]
    ensures UNIQUE_VERTICES !in mesh.attributes ==> forall v :: 0 <= v < |column| ==> column[v] == NO_ID
  {
    if UNIQUE_VERTICES in mesh.attributes then mesh.attributes[UNIQUE_VERTICES]
    else seq(mesh.nbVertices, _ => NO_ID)
  }

  // ---------------------------------------------------------------------------
  // Queries over one membership list
  // ---------------------------------------------------------------------------

  /** `mesh_component_vertices(uv, type)`: the entries of components of type `t`, in list order. */
  function VerticesOfType(vertices: seq<MeshComponentVertex>, t: ComponentType): (r: seq<MeshComponentVertex>)
    ensures forall x :: x in r <==> x in vertices && x.component.componentType == t
    ensures |r| <= |vertices|
  {
    if vertices == [] then []
    else (if vertices[0].component.componentType == t then [vertices[0]] else []) + VerticesOfType(vertices[1..], t)
  }

  /** `mesh_component_vertices(uv, id)`: the local indices of the entries of component `id`, in list order. */
  function VertexIndicesOf(vertices: seq<MeshComponentVertex>, id: Uuid): (r: seq<nat>)
    ensures |r| == |EntriesOf(vertices, id)|
    ensures forall k :: 0 <= k < |r| ==> r[k] == EntriesOf(vertices, id)[k].vertex
  {
    if vertices == [] then []
    else (if vertices[0].component.id == id then [vertices[0].vertex] else []) + VertexIndicesOf(vertices[1..], id)
  }

  /** `has_mesh_component_vertices(uv, type)`: the early-return scan. */
  function HasVertexOfType(vertices: seq<MeshComponentVertex>, t: ComponentType): (r: bool)
    ensures r <==> exists k :: 0 <= k < |vertices| && vertices[k].component.componentType == t
  {
    vertices != [] && (vertices[0].component.componentType == t || HasVertexOfType(vertices[1..], t))
  }

  /** `has_mesh_component_vertices(uv, id)`: the early-return scan. */
  function HasVertexOf(vertices: seq<MeshComponentVertex>, id: Uuid): (r: bool)
    ensures r <==> exists k :: 0 <= k < |vertices| && vertices[k].component.id == id
  {
    vertices != [] && (vertices[0].component.id == id || HasVertexOf(vertices[1..], id))
  }

  lemma {:induction false} HasVertexOfTypeIffFilterNonEmpty(vertices: seq<MeshComponentVertex>, t: ComponentType)
    ensures HasVertexOfType(vertices, t) <==> VerticesOfType(vertices, t) != []
  {
    if vertices != [] {
      HasVertexOfTypeIffFilterNonEmpty(vertices[1..], t);
    }
  }

  lemma {:induction false} HasVertexOfIffFilterNonEmpty(vertices: seq<MeshComponentVertex>, id: Uuid)
    ensures HasVertexOf(vertices, id) <==> VertexIndicesOf(vertices, id) != []
  {
    if vertices != [] {
      HasVertexOfIffFilterNonEmpty(vertices[1..], id);
    }
  }

  /** The type filter preserves order: filtering a concatenation concatenates the filtered parts. */
  lemma {:induction false} VerticesOfTypeConcat(a: seq<MeshComponentVertex>, b: seq<MeshComponentVertex>, t: ComponentType)
    ensures VerticesOfType(a + b, t) == VerticesOfType(a, t) + VerticesOfType(b, t)
  {
    if a == [] {
      assert a + b == b;
    } else {
      assert (a + b)[1..] == a[1..] + b;
      VerticesOfTypeConcat(a[1..], b, t);
    }
  }

  /** The component filter preserves order: filtering a concatenation concatenates the filtered parts. */
  lemma {:induction false} VertexIndicesOfConcat(a: seq<MeshComponentVertex>, b: seq<MeshComponentVertex>, id: Uuid)
    ensures VertexIndicesOf(a + b, id) == VertexIndicesOf(a, id) + VertexIndicesOf(b, id)
  {
    if a == [] {
      assert a + b == b;
    } else {
      assert (a + b)[1..] == a[1..] + b;
      VertexIndicesOfConcat(a[1..], b, id);
    }
  }

  // ---------------------------------------------------------------------------
  // Filtering one component out of a list (`filter_component_vertices`)
  // ---------------------------------------------------------------------------

  /** The entries of component `id`, in list order. */
  function EntriesOf(vertices: seq<MeshComponentVertex>, id: Uuid): (r: seq<MeshComponentVertex>)
    ensures forall x :: x in r <==> x in vertices && x.component.id == id
  {
    if vertices == [] then []
    else (if vertices[0].component.id == id then [vertices[0]] else []) + EntriesOf(vertices[1..], id)
  }

  /** The list with every entry of component `id` dropped (`to_keep` mask then `extract_vector_elements`). */
  function WithoutComponent(vertices: seq<MeshComponentVertex>, id: Uuid): (r: seq<MeshComponentVertex>)
    ensures forall x :: x in r <==> x in vertices && x.component.id != id
    ensures |r| <= |vertices|
  {
    if vertices == [] then []
    else (if vertices[0].component.id != id then [vertices[0]] else []) + WithoutComponent(vertices[1..], id)
  }

  lemma {:induction false} EntriesOfConcat(a: seq<MeshComponentVertex>, b: seq<MeshComponentVertex>, id: Uuid)
    ensures EntriesOf(a + b, id) == EntriesOf(a, id) + EntriesOf(b, id)
  {
    if a == [] {
      assert a + b == b;
    } else {
      assert (a + b)[1..] == a[1..] + b;
      EntriesOfConcat(a[1..], b, id);
    }
  }

  /** Dropping a component preserves the relative order of the remaining entries. */
  lemma {:induction false} WithoutComponentConcat(a: seq<MeshComponentVertex>, b: seq<MeshComponentVertex>, id: Uuid)
    ensures WithoutComponent(a + b, id) == WithoutComponent(a, id) + WithoutComponent(b, id)
  {
    if a == [] {
      assert a + b == b;
    } else {
      assert (a + b)[1..] == a[1..] + b;
      WithoutComponentConcat(a[1..], b, id);
    }
  }

  /** A list that holds no entry of `id` is left as it is (the `update` flag stays false). */
  lemma {:induction false} WithoutAbsentComponent(vertices: seq<MeshComponentVertex>, id: Uuid)
    requires !HasVertexOf(vertices, id)
    ensures WithoutComponent(vertices, id) == vertices
  {
    if vertices != [] {
      WithoutAbsentComponent(vertices[1..], id);
    }
  }

  /** Splitting a list into the entries of `id` and the others loses and adds nothing. */
  lemma {:induction false} EntriesPartition(vertices: seq<MeshComponentVertex>, id: Uuid)
    ensures multiset(EntriesOf(vertices, id)) + multiset(WithoutComponent(vertices, id)) == multiset(vertices)
  {
    if vertices != [] {
      var x, rest := vertices[0], vertices[1..];
      EntriesPartition(rest, id);
      MultisetHead(vertices);
      var head: seq<MeshComponentVertex> := if x.component.id == id then [x] else [];
      var other: seq<MeshComponentVertex> := if x.component.id != id then [x] else [];
      assert EntriesOf(vertices, id) == head + EntriesOf(rest, id);
      assert WithoutComponent(vertices, id) == other + WithoutComponent(rest, id);
      assert multiset(head) + multiset(other) == multiset{x};
    }
  }

  lemma MultisetHead<T>(s: seq<T>)
    requires s != []
    ensures multiset(s) == multiset{s[0]} + multiset(s[1..])
  {
    assert s == [s[0]] + s[1..];
  }

  /** Both filters distribute over a three-part split. */
  lemma SplitThree(a: seq<MeshComponentVertex>, m: seq<MeshComponentVertex>, b: seq<MeshComponentVertex>, id: Uuid)
    ensures WithoutComponent(a + m + b, id) == WithoutComponent(a, id) + WithoutComponent(m, id) + WithoutComponent(b, id)
    ensures EntriesOf(a + m + b, id) == EntriesOf(a, id) + EntriesOf(m, id) + EntriesOf(b, id)
  {
    WithoutComponentConcat(a + m, b, id);
    WithoutComponentConcat(a, m, id);
    EntriesOfConcat(a + m, b, id);
    EntriesOfConcat(a, m, id);
  }

  // ---------------------------------------------------------------------------
  // Renumbering one component's entries (`update_unique_vertices`)
  // ---------------------------------------------------------------------------

  /** Every entry carrying the uuid of `c` names `c` itself (a uuid identifies one component). */
  predicate ComponentUniform(vertices: seq<MeshComponentVertex>, c: ComponentID)
  {
    forall x :: x in vertices && x.component.id == c.id ==> x.component == c
  }

  /** Every local index of `c` in the list is an index into `old2new`. */
  predicate IndicesInRange(vertices: seq<MeshComponentVertex>, c: ComponentID, old2new: seq<nat>)
  {
    forall x :: x in vertices && x.component.id == c.id ==> x.vertex < |old2new|
  }

  /** The entries `(c, v)` for the local indices `olds`, in order. */
  function Tagged(c: ComponentID, olds: seq<nat>): (r: seq<MeshComponentVertex>)
    ensures |r| == |olds|
    ensures forall k :: 0 <= k < |r| ==> r[k] == MeshComponentVertex(c, olds[k])
  {
    if olds == [] then [] else [MeshComponentVertex(c, olds[0])] + Tagged(c, olds[1..])
  }

  /**
   * One inner iteration of `update_unique_vertices`: the FIRST entry `(c, oldId)`
   * of the current list is erased when its new index is NO_ID, and otherwise
   * gets `newId` as its local index.
   */
  function RenumberFirst(vertices: seq<MeshComponentVertex>, c: ComponentID, oldId: nat, newId: nat): (r: seq<MeshComponentVertex>)
    requires MeshComponentVertex(c, oldId) in vertices
  {
    var i := FirstIndex(vertices, MeshComponentVertex(c, oldId));
    if newId == NO_ID then EraseAt(vertices, i) else vertices[i := MeshComponentVertex(c, newId)]
  }

  /** What a renumbering step puts back: nothing for a deleted vertex, the renumbered entry otherwise. */
  function MappedEntry(c: ComponentID, newId: nat): seq<MeshComponentVertex>
  {
    if newId == NO_ID then [] else [MeshComponentVertex(c, newId)]
  }

  /** A renumbering step rewrites one occurrence of `(c, oldId)` into what `MappedEntry` says. */
  lemma RenumberFirstSplit(vertices: seq<MeshComponentVertex>, c: ComponentID, oldId: nat, newId: nat)
    requires MeshComponentVertex(c, oldId) in vertices
    ensures var i := FirstIndex(vertices, MeshComponentVertex(c, oldId));
      vertices == vertices[..i] + [MeshComponentVertex(c, oldId)] + vertices[i + 1..] &&
      RenumberFirst(vertices, c, oldId, newId) == vertices[..i] + MappedEntry(c, newId) + vertices[i + 1..]
  {
    var i := FirstIndex(vertices, MeshComponentVertex(c, oldId));
    SplitAt(vertices, i, MeshComponentVertex(c, newId));
    RewriteAt(vertices, i, MeshComponentVertex(c, newId), newId == NO_ID);
  }

  /** Erasing or overwriting position `i` splices what replaces it between the two sides. */
  lemma RewriteAt<T>(s: seq<T>, i: nat, y: T, erase: bool)
    requires i < |s|
    ensures (if erase then EraseAt(s, i) else s[i := y]) == s[..i] + (if erase then [] else [y]) + s[i + 1..]
  {
    if erase {
      assert s[..i] + [] == s[..i];
    } else {
      SplitAt(s, i, y);
    }
  }

  lemma RenumberFirstMultiset(vertices: seq<MeshComponentVertex>, c: ComponentID, oldId: nat, newId: nat)
    requires MeshComponentVertex(c, oldId) in vertices
    ensures multiset(RenumberFirst(vertices, c, oldId, newId)) + multiset{MeshComponentVertex(c, oldId)}
            == multiset(vertices) + multiset(MappedEntry(c, newId))
  {
    RenumberFirstSplit(vertices, c, oldId, newId);
  }

  lemma MultisetCancel<T>(a: multiset<T>, n: multiset<T>, v: multiset<T>, m: multiset<T>, x: T)
    requires a + multiset{x} <= v
    requires n + multiset{x} == v + m
    ensures a <= n
  {
    forall y ensures a[y] <= n[y] {
      assert (a + multiset{x})[y] <= v[y];
      assert (n + multiset{x})[y] == v[y] + m[y];
    }
  }

  /** The entries still to be renumbered stay present after one step. */
  lemma RenumberStep(vertices: seq<MeshComponentVertex>, c: ComponentID, olds: seq<nat>, old2new: seq<nat>)
    requires olds != [] && olds[0] < |old2new|
    requires multiset(Tagged(c, olds)) <= multiset(vertices)
    ensures MeshComponentVertex(c, olds[0]) in vertices
    ensures multiset(Tagged(c, olds[1..])) <= multiset(RenumberFirst(vertices, c, olds[0], old2new[olds[0]]))
  {
    var x := MeshComponentVertex(c, olds[0]);
    assert Tagged(c, olds) == [x] + Tagged(c, olds[1..]);
    assert x in multiset(vertices);
    RenumberFirstMultiset(vertices, c, olds[0], old2new[olds[0]]);
    MultisetCancel(multiset(Tagged(c, olds[1..])), multiset(RenumberFirst(vertices, c, olds[0], old2new[olds[0]])),
                   multiset(vertices), multiset(MappedEntry(c, old2new[olds[0]])), x);
  }

  /** The inner loop of `update_unique_vertices` over the snapshot `olds` of local indices. */
  function RenumberAll(vertices: seq<MeshComponentVertex>, c: ComponentID, olds: seq<nat>, old2new: seq<nat>): seq<MeshComponentVertex>
    requires forall v :: v in olds ==> v < |old2new|
    requires multiset(Tagged(c, olds)) <= multiset(vertices)
    decreases |olds|
  {
    if olds == [] then vertices
    else
      assert olds[0] in olds;
      assert forall v :: v in olds[1..] ==> v in olds;
      RenumberStep(vertices, c, olds, old2new);
      RenumberAll(RenumberFirst(vertices, c, olds[0], old2new[olds[0]]), c, olds[1..], old2new)
  }

  /** With one component per uuid, the snapshot of `c`'s local indices names exactly `c`'s entries. */
  lemma TaggedIndices(vertices: seq<MeshComponentVertex>, c: ComponentID)
    requires ComponentUniform(vertices, c)
    ensures Tagged(c, VertexIndicesOf(vertices, c.id)) == EntriesOf(vertices, c.id)
  {
    var es := EntriesOf(vertices, c.id);
    forall k | 0 <= k < |es| ensures Tagged(c, VertexIndicesOf(vertices, c.id))[k] == es[k] {
      assert es[k] in es;
    }
  }

  /** The snapshot of `c`'s local indices lies inside `old2new`. */
  lemma IndicesBounded(vertices: seq<MeshComponentVertex>, c: ComponentID, old2new: seq<nat>)
    requires IndicesInRange(vertices, c, old2new)
    ensures forall v :: v in VertexIndicesOf(vertices, c.id) ==> v < |old2new|
  {
    var olds := VertexIndicesOf(vertices, c.id);
    var es := EntriesOf(vertices, c.id);
    forall k | 0 <= k < |olds| ensures olds[k] < |old2new| {
      assert es[k] in es;
    }
  }

  lemma EntriesBelow(vertices: seq<MeshComponentVertex>, c: ComponentID)
    requires ComponentUniform(vertices, c)
    ensures multiset(Tagged(c, VertexIndicesOf(vertices, c.id))) <= multiset(vertices)
  {
    TaggedIndices(vertices, c);
    EntriesPartition(vertices, c.id);
  }

  /** `update_unique_vertices` applied to one membership list. */
  function Renumbered(vertices: seq<MeshComponentVertex>, c: ComponentID, old2new: seq<nat>): seq<MeshComponentVertex>
    requires ComponentUniform(vertices, c) && IndicesInRange(vertices, c, old2new)
  {
    IndicesBounded(vertices, c, old2new);
    EntriesBelow(vertices, c);
    RenumberAll(vertices, c, VertexIndicesOf(vertices, c.id), old2new)
  }

  /** Reference meaning of a renumbering: every entry deleted or moved to its new local index. */
  function Mapped(entries: seq<MeshComponentVertex>, old2new: seq<nat>): seq<MeshComponentVertex>
    requires forall x :: x in entries ==> x.vertex < |old2new|
  {
    if entries == [] then []
    else
      var x := entries[0];
      (if old2new[x.vertex] == NO_ID then [] else [x.(vertex := old2new[x.vertex])]) + Mapped(entries[1..], old2new)
  }

  lemma RenumberFirstKeepsOthers(vertices: seq<MeshComponentVertex>, c: ComponentID, oldId: nat, newId: nat)
    requires MeshComponentVertex(c, oldId) in vertices
    ensures WithoutComponent(RenumberFirst(vertices, c, oldId, newId), c.id) == WithoutComponent(vertices, c.id)
  {
    var x := MeshComponentVertex(c, oldId);
    var i := FirstIndex(vertices, x);
    var mid := MappedEntry(c, newId);
    RenumberFirstSplit(vertices, c, oldId, newId);
    SplitThree(vertices[..i], [x], vertices[i + 1..], c.id);
    SplitThree(vertices[..i], mid, vertices[i + 1..], c.id);
    assert WithoutComponent([x], c.id) == [];
    assert WithoutComponent(mid, c.id) == [];
  }

  lemma RenumberFirstEntries(vertices: seq<MeshComponentVertex>, c: ComponentID, oldId: nat, newId: nat)
    requires MeshComponentVertex(c, oldId) in vertices
    ensures multiset(EntriesOf(RenumberFirst(vertices, c, oldId, newId), c.id)) + multiset{MeshComponentVertex(c, oldId)}
            == multiset(EntriesOf(vertices, c.id)) + multiset(MappedEntry(c, newId))
  {
    var x := MeshComponentVertex(c, oldId);
    var i := FirstIndex(vertices, x);
    var pre, mid, post := vertices[..i], MappedEntry(c, newId), vertices[i + 1..];
    RenumberFirstSplit(vertices, c, oldId, newId);
    EntriesSplice(pre, post, x, mid, c.id);
    MultisetSplice(EntriesOf(pre, c.id), EntriesOf(post, c.id), x, mid);
  }

  /** Replacing one entry of `id` by at most one other entry of `id` does the same to the entries of `id`. */
  lemma EntriesSplice(pre: seq<MeshComponentVertex>, post: seq<MeshComponentVertex>, x: MeshComponentVertex,
                      mid: seq<MeshComponentVertex>, id: Uuid)
    requires x.component.id == id && |mid| <= 1 && forall y :: y in mid ==> y.component.id == id
    ensures EntriesOf(pre + [x] + post, id) == EntriesOf(pre, id) + [x] + EntriesOf(post, id)
    ensures EntriesOf(pre + mid + post, id) == EntriesOf(pre, id) + mid + EntriesOf(post, id)
  {
    EntriesOfOwn([x], id);
    EntriesOfOwn(mid, id);
    SplitThree(pre, [x], post, id);
    SplitThree(pre, mid, post, id);
  }

  /** A list of at most one entry, all of `id`, is its own filter. */
  lemma EntriesOfOwn(mid: seq<MeshComponentVertex>, id: Uuid)
    requires |mid| <= 1 && forall y :: y in mid ==> y.component.id == id
    ensures EntriesOf(mid, id) == mid
  {
    if mid != [] {
      assert mid[0] in mid;
      assert mid[1..] == [];
    }
  }

  lemma MultisetSplice<T>(before: seq<T>, after: seq<T>, x: T, mid: seq<T>)
    ensures multiset(before + mid + after) + multiset{x} == multiset(before + [x] + after) + multiset(mid)
  {
  }

  lemma TaggedBounded(c: ComponentID, olds: seq<nat>, old2new: seq<nat>)
    requires forall v :: v in olds ==> v < |old2new|
    ensures forall x :: x in Tagged(c, olds) ==> x.vertex < |old2new|
  {
    var r := Tagged(c, olds);
    forall x | x in r ensures x.vertex < |old2new| {
      var k :| 0 <= k < |r| && r[k] == x;
      assert olds[k] in olds;
    }
  }

  lemma MappedTaggedCons(c: ComponentID, olds: seq<nat>, old2new: seq<nat>)
    requires olds != [] && forall v :: v in olds ==> v < |old2new|
    ensures forall x :: x in Tagged(c, olds) ==> x.vertex < |old2new|
    ensures Mapped(Tagged(c, olds), old2new) == MappedEntry(c, old2new[olds[0]]) + Mapped(Tagged(c, olds[1..]), old2new)
  {
    TaggedBounded(c, olds, old2new);
    assert olds[0] in olds;
    assert Tagged(c, olds)[1..] == Tagged(c, olds[1..]);
  }

  lemma {:induction false} RenumberAllKeepsOthers(vertices: seq<MeshComponentVertex>, c: ComponentID, olds: seq<nat>, old2new: seq<nat>)
    requires forall v :: v in olds ==> v < |old2new|
    requires multiset(Tagged(c, olds)) <= multiset(vertices)
    ensures WithoutComponent(RenumberAll(vertices, c, olds, old2new), c.id) == WithoutComponent(vertices, c.id)
    decreases |olds|
  {
    if olds != [] {
      assert olds[0] in olds;
      assert forall v :: v in olds[1..] ==> v in olds;
      var newId := old2new[olds[0]];
      RenumberStep(vertices, c, olds, old2new);
      RenumberFirstKeepsOthers(vertices, c, olds[0], newId);
      RenumberAllKeepsOthers(RenumberFirst(vertices, c, olds[0], newId), c, olds[1..], old2new);
    }
  }

  lemma {:induction false} RenumberAllEntries(vertices: seq<MeshComponentVertex>, c: ComponentID, olds: seq<nat>, old2new: seq<nat>)
    requires forall v :: v in olds ==> v < |old2new|
    requires multiset(Tagged(c, olds)) <= multiset(vertices)
    requires forall x :: x in Tagged(c, olds) ==> x.vertex < |old2new|
    ensures multiset(EntriesOf(RenumberAll(vertices, c, olds, old2new), c.id)) + multiset(Tagged(c, olds))
            == multiset(EntriesOf(vertices, c.id)) + multiset(Mapped(Tagged(c, olds), old2new))
    decreases |olds|
  {
    if olds != [] {
      var x := MeshComponentVertex(c, olds[0]);
      assert olds[0] in olds;
      assert forall v :: v in olds[1..] ==> v in olds;
      var newId := old2new[olds[0]];
      RenumberStep(vertices, c, olds, old2new);
      var next := RenumberFirst(vertices, c, olds[0], newId);
      assert RenumberAll(vertices, c, olds, old2new) == RenumberAll(next, c, olds[1..], old2new);
      RenumberFirstEntries(vertices, c, olds[0], newId);
      TaggedBounded(c, olds[1..], old2new);
      RenumberAllEntries(next, c, olds[1..], old2new);
      assert Tagged(c, olds) == [x] + Tagged(c, olds[1..]);
      MappedTaggedCons(c, olds, old2new);
      MultisetChain(multiset(EntriesOf(RenumberAll(next, c, olds[1..], old2new), c.id)),
                    multiset(Tagged(c, olds[1..])), multiset(EntriesOf(next, c.id)),
                    multiset(Mapped(Tagged(c, olds[1..]), old2new)), x,
                    multiset(EntriesOf(vertices, c.id)), multiset(MappedEntry(c, newId)));
    }
  }

  lemma MultisetChain<T>(ef: multiset<T>, t1: multiset<T>, e1: multiset<T>, m1: multiset<T>, x: T, e0: multiset<T>, m: multiset<T>)
    requires ef + t1 == e1 + m1
    requires e1 + multiset{x} == e0 + m
    ensures ef + (multiset{x} + t1) == e0 + (m + m1)
  {
    forall y ensures (ef + (multiset{x} + t1))[y] == (e0 + (m + m1))[y] {
      assert (ef + t1)[y] == (e1 + m1)[y];
      assert (e1 + multiset{x})[y] == (e0 + m)[y];
    }
  }

  /** `update_unique_vertices` leaves the entries of every other component untouched and in order. */
  lemma RenumberedKeepsOtherComponents(vertices: seq<MeshComponentVertex>, c: ComponentID, old2new: seq<nat>)
    requires ComponentUniform(vertices, c) && IndicesInRange(vertices, c, old2new)
    ensures WithoutComponent(Renumbered(vertices, c, old2new), c.id) == WithoutComponent(vertices, c.id)
  {
    IndicesBounded(vertices, c, old2new);
    EntriesBelow(vertices, c);
    RenumberAllKeepsOthers(vertices, c, VertexIndicesOf(vertices, c.id), old2new);
  }

  /**
   * `update_unique_vertices` deletes each entry of `c` whose new index is NO_ID
   * and gives the others their new index: as a multiset, the entries of `c`
   * afterwards are exactly the mapped entries of `c` before.
   */
  lemma RenumberedEntriesOfComponent(vertices: seq<MeshComponentVertex>, c: ComponentID, old2new: seq<nat>)
    requires ComponentUniform(vertices, c) && IndicesInRange(vertices, c, old2new)
    ensures forall x :: x in EntriesOf(vertices, c.id) ==> x.vertex < |old2new|
    ensures multiset(EntriesOf(Renumbered(vertices, c, old2new), c.id))
            == multiset(Mapped(EntriesOf(vertices, c.id), old2new))
  {
    IndicesBounded(vertices, c, old2new);
    EntriesBelow(vertices, c);
    TaggedIndices(vertices, c);
    var olds := VertexIndicesOf(vertices, c.id);
    TaggedBounded(c, olds, old2new);
    RenumberAllEntries(vertices, c, olds, old2new);
    assert Renumbered(vertices, c, old2new) == RenumberAll(vertices, c, olds, old2new);
    var entries := multiset(EntriesOf(vertices, c.id));
    MultisetCancelRight(multiset(EntriesOf(RenumberAll(vertices, c, olds, old2new), c.id)),
                        multiset(Mapped(EntriesOf(vertices, c.id), old2new)), entries);
  }

  lemma MultisetCancelRight<T>(a: multiset<T>, b: multiset<T>, e: multiset<T>)
    requires a + e == e + b
    ensures a == b
  {
    forall y ensures a[y] == b[y] {
      assert (a + e)[y] == (e + b)[y];
    }
  }

  /** A list without entries of `c` is not changed by renumbering `c`. */
  lemma RenumberedAbsent(vertices: seq<MeshComponentVertex>, c: ComponentID, old2new: seq<nat>)
    requires ComponentUniform(vertices, c) && IndicesInRange(vertices, c, old2new)
    requires !HasVertexOf(vertices, c.id)
    ensures Renumbered(vertices, c, old2new) == vertices
  {
    HasVertexOfIffFilterNonEmpty(vertices, c.id);
  }

  /**
   * The step-by-step lookup can reorder a list: with `old2new == [1, 5]`, the
   * list `[(c, 0), (c, 1)]` becomes `[(c, 5), (c, 1)]`, because the second
   * lookup of `(c, 1)` finds the entry the first step has just renumbered.
   */
  lemma RenumberedReorders(c: ComponentID)
    ensures Renumbered([MeshComponentVertex(c, 0), MeshComponentVertex(c, 1)], c, [1, 5])
            == [MeshComponentVertex(c, 5), MeshComponentVertex(c, 1)]
  {
    var vs := [MeshComponentVertex(c, 0), MeshComponentVertex(c, 1)];
    assert VertexIndicesOf(vs, c.id) == [0, 1];
    var step := RenumberFirst(vs, c, 0, 1);
    assert FirstIndex(vs, MeshComponentVertex(c, 0)) == 0;
    assert step == [MeshComponentVertex(c, 1), MeshComponentVertex(c, 1)];
    assert FirstIndex(step, MeshComponentVertex(c, 1)) == 0;
    assert [0, 1][1..] == [1];
  }

  // ---------------------------------------------------------------------------
  // Re-registration copy loop (`register_component`, known component)
  // ---------------------------------------------------------------------------

  /**
   * Copies `source[v]` into `target[v]` for v = 0, 1, ... until `v` runs past
   * `source`, where the bounds-checked read throws and the source only logs a
   * warning: the copies made so far are kept. `complete` is false exactly when
   * that warning is logged.
   */
  method CopyColumn(target: seq<nat>, source: seq<nat>) returns (column: seq<nat>, complete: bool)
    ensures |column| == |target|
    ensures complete <==> |target| <= |source|
    ensures forall v :: 0 <= v < |column| ==> column[v] == (if v < |source| then source[v] else target[v])
  {
    column := target;
    var v := 0;
    while v < |target|
      invariant 0 <= v <= |target| && v <= |source|
      invariant |column| == |target|
      invariant forall k :: 0 <= k < v ==> column[k] == source[k]
      invariant forall k :: v <= k < |target| ==> column[k] == target[k]
    {
      if v >= |source| {
        // std::out_of_range from the old column: caught, logged, copying stops
        return column, false;
      }
      column := column[v := source[v]];
      v := v + 1;
    }
    complete := true;
  }

  // ---------------------------------------------------------------------------
  // The identity map itself
  // ---------------------------------------------------------------------------

  class VertexIdentifier {
    /** `component_vertices_`: per unique vertex, its (component, local vertex) list. */
    var componentVertices: seq<seq<MeshComponentVertex>>
    /** `vertex2unique_vertex_`: per registered component uuid, its local -> unique column. */
    var vertex2uniqueVertex: map<Uuid, seq<nat>>

    constructor ()
      ensures componentVertices == [] && vertex2uniqueVertex == map[]
    {
      componentVertices := [];
      vertex2uniqueVertex := map[];
    }

    /** `nb_unique_vertices`. */
    function NbUniqueVertices(): (n: nat)
      reads this
      ensures n == |componentVertices|
    {
      |componentVertices|
    }

    /** `unique_vertex(id, v)`: the column entry of local vertex `v` of component `id`. */
    function UniqueVertex(id: Uuid, v: nat): (r: nat)
      reads this
      requires id in vertex2uniqueVertex && v < |vertex2uniqueVertex[id]|
      ensures r == vertex2uniqueVertex[id][v]
    {
      vertex2uniqueVertex[id][v]
    }

    /** `create_unique_vertex`: one more unique vertex, with an empty list. */
    method CreateUniqueVertex() returns (id: nat)
      modifies this
      ensures id == |old(componentVertices)|
      ensures NbUniqueVertices() == old(NbUniqueVertices()) + 1
      ensures componentVertices == old(componentVertices) + [[]]
      ensures vertex2uniqueVertex == old(vertex2uniqueVertex)
    {
      id := |componentVertices|;
      componentVertices := componentVertices + [[]];
    }

    /** `create_unique_vertices(nb)`: `nb` more unique vertices; the first new index is returned. */
    method CreateUniqueVertices(nb: nat) returns (first: nat)
      modifies this
      ensures first == |old(componentVertices)|
      ensures NbUniqueVertices() == old(NbUniqueVertices()) + nb
      ensures componentVertices == old(componentVertices) + seq(nb, _ => [])
      ensures vertex2uniqueVertex == old(vertex2uniqueVertex)
    {
      first := |componentVertices|;
      componentVertices := componentVertices + seq(nb, _ => []);
    }

    /**
     * `register_component`. A new component must not carry an attribute named
     * GUARDED_ATTRIBUTE; it then gets the UNIQUE_VERTICES column (reused if the
     * mesh already has one, otherwise filled with NO_ID). A known component gets
     * that column with its old values copied in, as far as they reach.
     */
    method RegisterComponent(id: Uuid, mesh: MeshVertices) returns (r: Outcome, newMesh: MeshVertices)
      requires MeshWellFormed(mesh)
      modifies this
      ensures componentVertices == old(componentVertices)
      ensures id !in old(vertex2uniqueVertex) && GUARDED_ATTRIBUTE in mesh.attributes ==>
        r == Fail(AttributeAlreadyExists) && newMesh == mesh && vertex2uniqueVertex == old(vertex2uniqueVertex)
      ensures id !in old(vertex2uniqueVertex) && GUARDED_ATTRIBUTE !in mesh.attributes ==>
        r == Pass && vertex2uniqueVertex == old(vertex2uniqueVertex)[id := FoundOrCreated(mesh)]
      ensures id in old(vertex2uniqueVertex) ==>
        r == Pass && id in vertex2uniqueVertex &&
        vertex2uniqueVertex.Keys == old(vertex2uniqueVertex).Keys &&
        (forall other :: other in vertex2uniqueVertex && other != id ==> vertex2uniqueVertex[other] == old(vertex2uniqueVertex)[other]) &&
        |vertex2uniqueVertex[id]| == mesh.nbVertices &&
        forall v :: 0 <= v < mesh.nbVertices ==>
          vertex2uniqueVertex[id][v] ==
            (if v < |old(vertex2uniqueVertex)[id]| then old(vertex2uniqueVertex)[id][v] else FoundOrCreated(mesh)[v])
      ensures r == Pass ==>
        newMesh == mesh.(attributes := mesh.attributes[UNIQUE_VERTICES := vertex2uniqueVertex[id]]) &&
        MeshWellFormed(newMesh)
    {
      var column := FoundOrCreated(mesh);
      if id !in vertex2uniqueVertex {
        if GUARDED_ATTRIBUTE in mesh.attributes {
          return Fail(AttributeAlreadyExists), mesh;
        }
        vertex2uniqueVertex := vertex2uniqueVertex[id := column];
      } else {
        var complete;
        column, complete := CopyColumn(column, vertex2uniqueVertex[id]);
        vertex2uniqueVertex := vertex2uniqueVertex[id := column];
      }
      r := Pass;
      newMesh := mesh.(attributes := mesh.attributes[UNIQUE_VERTICES := column]);
    }

    /**
     * `unregister_component`: the UNIQUE_VERTICES attribute is deleted from the
     * mesh, the component's column is forgotten and every entry of the
     * component is dropped from every list.
     */
    method UnregisterComponent(id: Uuid, mesh: MeshVertices) returns (newMesh: MeshVertices)
      modifies this
      ensures newMesh == mesh.(attributes := mesh.attributes - {UNIQUE_VERTICES})
      ensures vertex2uniqueVertex == old(vertex2uniqueVertex) - {id}
      ensures |componentVertices| == |old(componentVertices)|
      ensures forall uv :: 0 <= uv < |componentVertices| ==>
        componentVertices[uv] == WithoutComponent(old(componentVertices)[uv], id)
    {
      newMesh := mesh.(attributes := mesh.attributes - {UNIQUE_VERTICES});
      vertex2uniqueVertex := vertex2uniqueVertex - {id};
      FilterComponentVertices(id);
    }

    /** `filter_component_vertices`: every list loses the entries of `id`; only lists that hold one are rewritten. */
    method FilterComponentVertices(id: Uuid)
      modifies this
      ensures vertex2uniqueVertex == old(vertex2uniqueVertex)
      ensures |componentVertices| == |old(componentVertices)|
      ensures forall uv :: 0 <= uv < |componentVertices| ==>
        componentVertices[uv] == WithoutComponent(old(componentVertices)[uv], id)
    {
      var uv := 0;
      while uv < |componentVertices|
        invariant 0 <= uv <= |componentVertices| == |old(componentVertices)|
        invariant vertex2uniqueVertex == old(vertex2uniqueVertex)
        invariant forall k :: 0 <= k < uv ==> componentVertices[k] == WithoutComponent(old(componentVertices)[k], id)
        invariant forall k :: uv <= k < |componentVertices| ==> componentVertices[k] == old(componentVertices)[k]
      {
        var vertices := componentVertices[uv];
        if HasVertexOf(vertices, id) {
          componentVertices := componentVertices[uv := WithoutComponent(vertices, id)];
        } else {
          WithoutAbsentComponent(vertices, id);
        }
        uv := uv + 1;
      }
    }

    /**
     * `set_unique_vertex`: nothing happens if the component vertex already maps
     * to `u`. Otherwise it is first unlinked from its old unique vertex (if
     * any), its column entry becomes `u`, and it is appended to `u`'s list
     * unless already there. A bounds-checked read of `u`'s list fails after
     * the first two steps, as in the source.
     */
    method SetUniqueVertex(cv: MeshComponentVertex, u: nat) returns (r: Outcome)
      modifies this
      ensures cv.component.id !in old(vertex2uniqueVertex) ==> r == Fail(UnknownComponent) && unchanged(this)
      ensures cv.component.id in old(vertex2uniqueVertex) ==>
        var column := old(vertex2uniqueVertex)[cv.component.id];
        (cv.vertex >= |column| ==> r == Fail(VertexOutOfRange) && unchanged(this)) &&
        (cv.vertex < |column| && column[cv.vertex] == u ==> r == Pass && unchanged(this))
      ensures cv.component.id in old(vertex2uniqueVertex) && cv.vertex < |old(vertex2uniqueVertex)[cv.component.id]| ==>
        var was := old(vertex2uniqueVertex)[cv.component.id][cv.vertex];
        var linked := was < |old(componentVertices)| && cv in old(componentVertices)[was];
        (was != u && was != NO_ID && !linked ==>
          r == Fail(if was < |old(componentVertices)| then UniqueVertexNotCorrect else UniqueVertexOutOfRange) &&
          componentVertices == old(componentVertices) && vertex2uniqueVertex == old(vertex2uniqueVertex)) &&
        (was != u && (was == NO_ID || linked) ==>
          var unlinked := if was == NO_ID then old(componentVertices)
                          else old(componentVertices)[was := RemoveFirst(old(componentVertices)[was], cv)];
          var newColumn: seq<nat> := old(vertex2uniqueVertex)[cv.component.id][cv.vertex := u];
          vertex2uniqueVertex == old(vertex2uniqueVertex)[cv.component.id := newColumn] &&
          (u < |unlinked| ==> r == Pass && componentVertices == unlinked[u := AppendIfAbsent(unlinked[u], cv)]) &&
          (u >= |unlinked| ==> r == Fail(UniqueVertexOutOfRange) && componentVertices == unlinked))
      ensures r == Pass ==>
        cv.component.id in vertex2uniqueVertex && cv.vertex < |vertex2uniqueVertex[cv.component.id]| &&
        UniqueVertex(cv.component.id, cv.vertex) == u
      ensures r == Pass && old(UniqueVertex(cv.component.id, cv.vertex)) != u ==>
        u < |componentVertices| && cv in componentVertices[u]
    {
      var id := cv.component.id;
      if id !in vertex2uniqueVertex {
        return Fail(UnknownComponent);
      }
      var column := vertex2uniqueVertex[id];
      if cv.vertex >= |column| {
        return Fail(VertexOutOfRange);
      }
      var was := column[cv.vertex];
      if was == u {
        return Pass;
      }
      if was != NO_ID {
        r := UnsetUniqueVertex(cv, was);
        if r.Fail? {
          return;
        }
      }
      vertex2uniqueVertex := vertex2uniqueVertex[id := column[cv.vertex := u]];
      if u >= |componentVertices| {
        return Fail(UniqueVertexOutOfRange);
      }
      var vertices := componentVertices[u];
      if cv !in vertices {
        componentVertices := componentVertices[u := vertices + [cv]];
      }
      r := Pass;
    }

    /**
     * `unset_unique_vertex`: fails unless `cv` is in `u`'s list; otherwise its
     * first occurrence is erased. The component column is NOT updated.
     */
    method UnsetUniqueVertex(cv: MeshComponentVertex, u: nat) returns (r: Outcome)
      modifies this
      ensures r == Pass <==> u < |old(componentVertices)| && cv in old(componentVertices)[u]
      ensures u >= |old(componentVertices)| ==> r == Fail(UniqueVertexOutOfRange)
      ensures u < |old(componentVertices)| && cv !in old(componentVertices)[u] ==> r == Fail(UniqueVertexNotCorrect)
      ensures r == Pass ==> componentVertices == old(componentVertices)[u := RemoveFirst(old(componentVertices)[u], cv)]
      ensures r.Fail? ==> componentVertices == old(componentVertices)
      ensures vertex2uniqueVertex == old(vertex2uniqueVertex)
    {
      if u >= |componentVertices| {
        return Fail(UniqueVertexOutOfRange);
      }
      var vertices := componentVertices[u];
      if cv !in vertices {
        return Fail(UniqueVertexNotCorrect);
      }
      componentVertices := componentVertices[u := EraseAt(vertices, FirstIndex(vertices, cv))];
      r := Pass;
    }

    /** `component_unique_vertices(id)`: the unique vertices whose list holds an entry of `id`, ascending. */
    method ComponentUniqueVertices(id: Uuid) returns (r: seq<nat>)
      ensures forall i, j :: 0 <= i < j < |r| ==> r[i] < r[j]
      ensures forall uv: nat :: uv in r <==> uv < |componentVertices| && VertexIndicesOf(componentVertices[uv], id) != []
    {
      r := [];
      var uv := 0;
      while uv < |componentVertices|
        invariant 0 <= uv <= |componentVertices|
        invariant forall i, j :: 0 <= i < j < |r| ==> r[i] < r[j]
        invariant forall k :: 0 <= k < |r| ==> r[k] < uv
        invariant forall k: nat :: k in r <==> k < uv && VertexIndicesOf(componentVertices[k], id) != []
      {
        if VertexIndicesOf(componentVertices[uv], id) != [] {
          r := r + [uv];
        }
        uv := uv + 1;
      }
    }

    /**
     * `update_unique_vertices(c, old2new)`: every list that holds entries of
     * `c` is renumbered as `RenumberEntries` does; the other lists and the
     * component columns are left alone.
     */
    method UpdateUniqueVertices(c: ComponentID, old2new: seq<nat>)
      requires Renumberable(componentVertices, c, old2new)
      modifies this
      ensures vertex2uniqueVertex == old(vertex2uniqueVertex)
      ensures |componentVertices| == |old(componentVertices)|
      ensures forall uv :: 0 <= uv < |componentVertices| ==>
        componentVertices[uv] == Renumbered(old(componentVertices)[uv], c, old2new)
    {
      var uvs := ComponentUniqueVertices(c.id);
      ghost var lists := componentVertices;
      var k := 0;
      while k < |uvs|
        invariant 0 <= k <= |uvs|
        invariant vertex2uniqueVertex == old(vertex2uniqueVertex)
        invariant RenumberedAt(componentVertices, lists, uvs[..k], c, old2new)
      {
        var uv := uvs[k];
        assert uv in uvs;
        assert forall j :: 0 <= j < k ==> uvs[j] < uv;
        RenumberedAtNext(componentVertices, lists, uvs, k, c, old2new);
        var renumbered := RenumberEntries(componentVertices[uv], c, old2new);
        componentVertices := componentVertices[uv := renumbered];
        k := k + 1;
      }
      assert uvs[..k] == uvs;
      RenumberedAtEnd(componentVertices, lists, uvs, c, old2new);
    }
  }

  /** Every list meets the conditions under which `update_unique_vertices` renumbers it. */
  predicate Renumberable(lists: seq<seq<MeshComponentVertex>>, c: ComponentID, old2new: seq<nat>)
  {
    forall uv :: 0 <= uv < |lists| ==> ComponentUniform(lists[uv], c) && IndicesInRange(lists[uv], c, old2new)
  }

  /** The lists at the unique vertices in `done` are renumbered; every other list is as in `lists`. */
  ghost predicate RenumberedAt(now: seq<seq<MeshComponentVertex>>, lists: seq<seq<MeshComponentVertex>>, done: seq<nat>,
                               c: ComponentID, old2new: seq<nat>)
  {
    Renumberable(lists, c, old2new) && |now| == |lists| &&
    forall uv :: 0 <= uv < |lists| ==> now[uv] == if uv in done then Renumbered(lists[uv], c, old2new) else lists[uv]
  }

  /** One iteration of the outer loop: the list it renumbers is still the original one, and the next state is described. */
  lemma RenumberedAtNext(now: seq<seq<MeshComponentVertex>>, lists: seq<seq<MeshComponentVertex>>, uvs: seq<nat>, k: nat,
                         c: ComponentID, old2new: seq<nat>)
    requires k < |uvs| && uvs[k] < |lists| && forall j :: 0 <= j < k ==> uvs[j] < uvs[k]
    requires RenumberedAt(now, lists, uvs[..k], c, old2new)
    ensures uvs[k] < |now| && now[uvs[k]] == lists[uvs[k]]
    ensures ComponentUniform(now[uvs[k]], c) && IndicesInRange(now[uvs[k]], c, old2new)
    ensures RenumberedAt(now[uvs[k] := Renumbered(lists[uvs[k]], c, old2new)], lists, uvs[..k + 1], c, old2new)
  {
    assert uvs[k] !in uvs[..k];
    assert uvs[..k + 1] == uvs[..k] + [uvs[k]];
  }

  /** After the outer loop: the lists not visited hold no entry of `c`, so they equal their renumbered form. */
  lemma RenumberedAtEnd(now: seq<seq<MeshComponentVertex>>, lists: seq<seq<MeshComponentVertex>>, uvs: seq<nat>,
                        c: ComponentID, old2new: seq<nat>)
    requires RenumberedAt(now, lists, uvs, c, old2new)
    requires forall uv: nat :: uv in uvs <==> uv < |lists| && VertexIndicesOf(lists[uv], c.id) != []
    ensures |now| == |lists|
    ensures forall uv :: 0 <= uv < |now| ==> now[uv] == Renumbered(lists[uv], c, old2new)
  {
    forall uv | 0 <= uv < |lists| && uv !in uvs
      ensures now[uv] == Renumbered(lists[uv], c, old2new)
    {
      HasVertexOfIffFilterNonEmpty(lists[uv], c.id);
      RenumberedAbsent(lists[uv], c, old2new);
    }
  }

  /** One iteration of the inner loop keeps what the rest of the loop needs, and the final result. */
  lemma RenumberLoopStep(vertices: seq<MeshComponentVertex>, c: ComponentID, olds: seq<nat>, old2new: seq<nat>)
    requires olds != [] && forall v :: v in olds ==> v < |old2new|
    requires multiset(Tagged(c, olds)) <= multiset(vertices)
    ensures olds[0] < |old2new| && MeshComponentVertex(c, olds[0]) in vertices
    ensures var next := RenumberFirst(vertices, c, olds[0], old2new[olds[0]]);
      (forall v :: v in olds[1..] ==> v < |old2new|) &&
      multiset(Tagged(c, olds[1..])) <= multiset(next) &&
      RenumberAll(next, c, olds[1..], old2new) == RenumberAll(vertices, c, olds, old2new)
  {
    assert olds[0] in olds;
    assert forall v :: v in olds[1..] ==> v in olds;
    RenumberStep(vertices, c, olds, old2new);
  }

  /**
   * One `modify_value` of the inner loop: the first entry `(c, oldId)` is
   * erased when `newId` is NO_ID, and otherwise gets `newId` as its local index.
   */
  method RenumberFirstEntry(vertices: seq<MeshComponentVertex>, c: ComponentID, oldId: nat, newId: nat)
    returns (r: seq<MeshComponentVertex>)
    requires MeshComponentVertex(c, oldId) in vertices
    ensures r == RenumberFirst(vertices, c, oldId, newId)
  {
    var pos := FirstIndex(vertices, MeshComponentVertex(c, oldId));
    if newId == NO_ID {
      r := EraseAt(vertices, pos);
    } else {
      r := vertices[pos := vertices[pos].(vertex := newId)];
    }
  }

  /**
   * The inner loop of `update_unique_vertices` on one list: for each local
   * index of `c` in the snapshot taken before the loop, the first matching
   * entry of the current list is erased (new index NO_ID) or renumbered.
   */
  method RenumberEntries(vertices: seq<MeshComponentVertex>, c: ComponentID, old2new: seq<nat>) returns (r: seq<MeshComponentVertex>)
    requires ComponentUniform(vertices, c) && IndicesInRange(vertices, c, old2new)
    ensures r == Renumbered(vertices, c, old2new)
  {
    var olds := VertexIndicesOf(vertices, c.id);
    IndicesBounded(vertices, c, old2new);
    EntriesBelow(vertices, c);
    ghost var goal := Renumbered(vertices, c, old2new);
    r := vertices;
    var j := 0;
    while j < |olds|
      invariant 0 <= j <= |olds|
      invariant forall v :: v in olds[j..] ==> v < |old2new|
      invariant multiset(Tagged(c, olds[j..])) <= multiset(r)
      invariant RenumberAll(r, c, olds[j..], old2new) == goal
    {
      RenumberLoopStep(r, c, olds[j..], old2new);
      assert olds[j..][0] == olds[j] && olds[j..][1..] == olds[j + 1..];
      r := RenumberFirstEntry(r, c, olds[j], old2new[olds[j]]);
      j := j + 1;
    }
  }
}
