/** Scene objects as the importer sees them, and the split of an import
    result into mesh and non-mesh objects. */
module Objects {

  /** A handle on a scene object (Blender's object reference). */
  type ObjectId = nat

  /** `obj.type`: the importer only distinguishes 'MESH' from everything else
      (empties, armatures, cameras, lights, ...). */
  datatype Kind = Mesh | Other

  /** A collection an object can be linked into: the scene's own root
      collection, or a collection of `bpy.data.collections`, which Blender
      keys by name. */
  datatype CollectionRef = SceneRoot | Named(name: string)

  /** An object's name, type and `users_collection`. */
  datatype SceneObject = SceneObject(name: string, kind: Kind, users: set<CollectionRef>)

  /** No element occurs twice. */
  predicate Distinct<T(==)>(s: seq<T>) {
    forall i, j :: 0 <= i < j < |s| ==> s[i] != s[j]
  }

  /** A list comprehension `[x for x in s if p(x)]`. */
  function Filter<T(!new)>(s: seq<T>, p: T -> bool): (r: seq<T>)
    ensures |r| <= |s|
    ensures forall x :: x in r <==> x in s && p(x)
  {
    if s == [] then [] else (if p(s[0]) then [s[0]] else []) + Filter(s[1..], p)
  }

  /** Filtering a concatenation filters each part and keeps them in order:
      the comprehension preserves the order of its input. */
  lemma {:induction false} FilterAppend<T(!new)>(a: seq<T>, b: seq<T>, p: T -> bool)
    ensures Filter(a + b, p) == Filter(a, p) + Filter(b, p)
  {
    if a == [] {
      assert a + b == b;
    } else {
      assert (a + b)[1..] == a[1..] + b;
      FilterAppend(a[1..], b, p);
    }
  }

  /** The first element kept is the first element of `s` satisfying `p`. */
  lemma {:induction false} FilterHead<T(!new)>(s: seq<T>, p: T -> bool)
    requires Filter(s, p) != []
    ensures exists k :: (0 <= k < |s| && s[k] == Filter(s, p)[0] && p(s[k]) &&
      forall j :: 0 <= j < k ==> !p(s[j]))
  {
    if !p(s[0]) {
      FilterHead(s[1..], p);
      var k :| 0 <= k < |s[1..]| && s[1..][k] == Filter(s[1..], p)[0] && p(s[1..][k]) &&
        forall j :: 0 <= j < k ==> !p(s[1..][j]);
      assert s[k + 1] == Filter(s, p)[0];
      forall j | 0 <= j < k + 1 ensures !p(s[j]) {
        if j > 0 { assert s[j] == s[1..][j - 1]; }
      }
    }
  }

  /** Filtering with a predicate and with its negation splits `s` into two
      lists that together hold every element exactly as often as `s` does. */
  lemma {:induction false} FilterSplit<T(!new)>(s: seq<T>, p: T -> bool, q: T -> bool)
    requires forall x :: q(x) == !p(x)
    ensures multiset(Filter(s, p)) + multiset(Filter(s, q)) == multiset(s)
    ensures |Filter(s, p)| + |Filter(s, q)| == |s|
  {
    if s != [] {
      FilterSplit(s[1..], p, q);
      assert s == [s[0]] + s[1..];
    }
  }

  /** Filtering keeps a list free of duplicates. */
  lemma {:induction false} FilterDistinct<T(!new)>(s: seq<T>, p: T -> bool)
    requires Distinct(s)
    ensures Distinct(Filter(s, p))
  {
    if s != [] {
      assert Distinct(s[1..]) by {
        forall i, j | 0 <= i < j < |s[1..]| ensures s[1..][i] != s[1..][j] {
          assert s[1..][i] == s[i + 1] && s[1..][j] == s[j + 1];
        }
      }
      FilterDistinct(s[1..], p);
      assert s[0] !in s[1..] by {
        forall j | 0 <= j < |s[1..]| ensures s[1..][j] != s[0] {
          assert s[1..][j] == s[j + 1];
        }
      }
    }
  }

  /** The object behind `id` exists and is of type 'MESH'. */
  predicate IsMeshIn(objects: map<ObjectId, SceneObject>, id: ObjectId) {
    id in objects && objects[id].kind == Mesh
  }

  /** `mesh_objects = [obj for obj in imported_objects if obj.type == 'MESH']` */
  function MeshObjects(ids: seq<ObjectId>, objects: map<ObjectId, SceneObject>): (r: seq<ObjectId>)
    ensures forall id :: id in r <==> id in ids && IsMeshIn(objects, id)
    ensures |r| <= |ids|
  {
    Filter(ids, id => IsMeshIn(objects, id))
  }

  /** `non_mesh_objects = [obj for obj in imported_objects if obj.type != 'MESH']` */
  function NonMeshObjects(ids: seq<ObjectId>, objects: map<ObjectId, SceneObject>): (r: seq<ObjectId>)
    ensures forall id :: id in r <==> id in ids && !IsMeshIn(objects, id)
    ensures |r| <= |ids|
  {
    Filter(ids, id => !IsMeshIn(objects, id))
  }

  /** The two lists together are a rearrangement of the import result: every
      imported object lands in one of them, as often as it was imported.
      Which list it lands in is stated by `MeshObjects` and `NonMeshObjects`. */
  lemma Partition(ids: seq<ObjectId>, objects: map<ObjectId, SceneObject>)
    ensures multiset(MeshObjects(ids, objects)) + multiset(NonMeshObjects(ids, objects)) == multiset(ids)
    ensures |MeshObjects(ids, objects)| + |NonMeshObjects(ids, objects)| == |ids|
  {
    FilterSplit(ids, id => IsMeshIn(objects, id), id => !IsMeshIn(objects, id));
  }

  /** Both lists keep import order: splitting the import result into two
      consecutive parts splits each list the same way. */
  lemma PartitionKeepsOrder(a: seq<ObjectId>, b: seq<ObjectId>, objects: map<ObjectId, SceneObject>)
    ensures MeshObjects(a + b, objects) == MeshObjects(a, objects) + MeshObjects(b, objects)
    ensures NonMeshObjects(a + b, objects) == NonMeshObjects(a, objects) + NonMeshObjects(b, objects)
  {
    FilterAppend(a, b, id => IsMeshIn(objects, id));
    FilterAppend(a, b, id => !IsMeshIn(objects, id));
  }

  /** `mesh_objects[0]`, the object the join keeps, is the first mesh in
      import order. */
  lemma FirstMesh(ids: seq<ObjectId>, objects: map<ObjectId, SceneObject>)
    requires MeshObjects(ids, objects) != []
    ensures exists k :: (0 <= k < |ids| && ids[k] == MeshObjects(ids, objects)[0] &&
      IsMeshIn(objects, ids[k]) && forall j :: 0 <= j < k ==> !IsMeshIn(objects, ids[j]))
  {
    FilterHead(ids, id => IsMeshIn(objects, id));
  }

  /** Both lists of a duplicate-free import are duplicate-free. */
  lemma PartitionDistinct(ids: seq<ObjectId>, objects: map<ObjectId, SceneObject>)
    requires Distinct(ids)
    ensures Distinct(MeshObjects(ids, objects)) && Distinct(NonMeshObjects(ids, objects))
  {
    FilterDistinct(ids, id => IsMeshIn(objects, id));
    FilterDistinct(ids, id => !IsMeshIn(objects, id));
  }
}
