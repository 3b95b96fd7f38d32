/** The scene store the importer works on, and `import_fbx_file`: one FBX
    file's import result reduced to a single mesh object, named after the
    file and filed into the collection named after the file's folder. */
module Scenes {
  import opened Objects
  import opened Paths

  datatype Option<T> = None | Some(value: T)

  /** What makes `import_fbx_file` raise. */
  datatype ImportError =
    | DecodeFailed   // the FBX import operator itself raised
    | NoMeshContent  // no imported mesh: `mesh_objects[0]` raised IndexError

  datatype Result<T> = Success(value: T) | Failure(error: ImportError)

  /** The handles listed in `ids`, as a set. */
  function Elements(ids: seq<ObjectId>): (e: set<ObjectId>)
    ensures forall id :: id in e <==> id in ids
  {
    set id | id in ids
  }

  /** Every named collection in `users` exists. */
  predicate UsersIn(users: set<CollectionRef>, collections: set<string>) {
    forall c :: c in users && c.Named? ==> c.name in collections
  }

  /** The decoder produced at least one mesh. */
  predicate HasMesh(created: seq<SceneObject>) {
    exists i :: 0 <= i < |created| && created[i].kind == Mesh
  }

  /** The object the decoder created `id - start`-th. */
  function CreatedAt(start: nat, created: seq<SceneObject>, id: ObjectId): SceneObject
    requires start <= id < start + |created|
  {
    created[id - start]
  }

  /** The objects a decoder run creates, under consecutive handles from `start`. */
  function Placed(start: nat, created: seq<SceneObject>): (m: map<ObjectId, SceneObject>)
    ensures forall id :: id in m <==> start <= id < start + |created|
    ensures forall i :: 0 <= i < |created| ==> m[start + i] == created[i]
  {
    map id: ObjectId | start <= id < start + |created| :: CreatedAt(start, created, id)
  }

  class Scene {
    /** `bpy.data.objects`, by handle. */
    var objects: map<ObjectId, SceneObject>
    /** The names of `bpy.data.collections`. */
    var collections: set<string>
    /** `scene.collection.children`, by name, in link order. */
    var rootChildren: seq<string>
    /** The handle the next created object receives. */
    var nextId: nat

    /** A scene with no objects and no collections under its root. */
    constructor ()
      ensures Valid()
      ensures objects == map[] && collections == {} && rootChildren == [] && nextId == 0
    {
      objects, collections, rootChildren, nextId := map[], {}, [], 0;
    }

    /** Handles are below `nextId`, and every membership and every child of
        the root names an existing collection. */
    ghost predicate Valid()
      reads this
    {
      && (forall id :: id in objects ==> id < nextId && UsersIn(objects[id].users, collections))
      && (forall n :: n in rootChildren ==> n in collections)
    }

    /** `bpy.ops.import_scene.fbx` followed by `bpy.context.selected_objects`:
        the decoder adds the objects it created, and these are the selection,
        in the order the decoder lists them. */
    method PlaceImported(created: seq<SceneObject>) returns (ids: seq<ObjectId>)
      requires Valid()
      requires forall o :: o in created ==> UsersIn(o.users, collections)
      modifies this`objects, this`nextId
      ensures Valid()
      ensures |ids| == |created| && forall i :: 0 <= i < |ids| ==> ids[i] == old(nextId) + i
      ensures objects == old(objects) + Placed(old(nextId), created)
      ensures nextId == old(nextId) + |created|
    {
      var start := nextId;
      ids := seq(|created|, i => start + i);
      objects := objects + Placed(start, created);
      nextId := start + |created|;
    }

    /** `bpy.ops.object.join()` with the meshes selected and the first one
        active: the others are absorbed into the first and cease to exist.
        The first keeps its name, type and collections. */
    method JoinMeshes(meshes: seq<ObjectId>)
      requires Valid()
      requires meshes != [] && Distinct(meshes)
      requires forall m :: m in meshes ==> m in objects
      modifies this`objects
      ensures Valid()
      ensures objects == old(objects) - Elements(meshes[1..])
      ensures meshes[0] in objects && objects[meshes[0]] == old(objects)[meshes[0]]
    {
      assert meshes[0] !in meshes[1..] by {
        forall k | 0 <= k < |meshes[1..]| ensures meshes[1..][k] != meshes[0] {
          assert meshes[1..][k] == meshes[k + 1];
        }
      }
      objects := objects - Elements(meshes[1..]);
    }

    /** `bpy.data.objects.remove(obj, do_unlink=True)`: the object must still
        exist, and it disappears together with its collection links. */
    method RemoveObject(id: ObjectId)
      requires Valid() && id in objects
      modifies this`objects
      ensures Valid()
      ensures objects == old(objects) - {id}
    {
      objects := objects - {id};
    }

    /** The deletion loop over `non_mesh_objects`: exactly the listed objects
        are removed. */
    method RemoveObjects(doomed: seq<ObjectId>)
      requires Valid()
      requires Distinct(doomed) && forall id :: id in doomed ==> id in objects
      modifies this`objects
      ensures Valid()
      ensures objects == old(objects) - Elements(doomed)
    {
      for i := 0 to |doomed|
        invariant Valid()
        invariant objects == old(objects) - Elements(doomed[..i])
      {
        assert doomed[i] !in doomed[..i];
        RemoveObject(doomed[i]);
        assert doomed[..i + 1] == doomed[..i] + [doomed[i]];
      }
      assert doomed[..|doomed|] == doomed;
    }

    /** `joined_object.name = fbx_name`, as a plain field update. */
    method Rename(id: ObjectId, name: string)
      requires Valid() && id in objects
      modifies this`objects
      ensures Valid()
      ensures objects == old(objects)[id := old(objects)[id].(name := name)]
    {
      objects := objects[id := objects[id].(name := name)];
    }

    /** `bpy.data.collections.get(name)`, and when that finds nothing,
        `bpy.data.collections.new(name)` linked under the scene's root
        collection. An existing collection is reused and nothing changes;
        otherwise exactly one collection is added. */
    method GetOrCreateCollection(name: string)
      requires Valid()
      modifies this`collections, this`rootChildren
      ensures Valid()
      ensures collections == old(collections) + {name}
      ensures name in old(collections) ==> rootChildren == old(rootChildren)
      ensures name !in old(collections) ==> rootChildren == old(rootChildren) + [name]
      ensures |collections| <= |old(collections)| + 1
    {
      if name !in collections {
        collections := collections + {name};
        rootChildren := rootChildren + [name];
      }
    }

    /** `collection.objects.unlink(obj)`: the object must be in the collection. */
    method Unlink(id: ObjectId, c: CollectionRef)
      requires Valid() && id in objects && c in objects[id].users
      modifies this`objects
      ensures Valid()
      ensures objects == old(objects)[id := old(objects)[id].(users := old(objects)[id].users - {c})]
    {
      objects := objects[id := objects[id].(users := objects[id].users - {c})];
    }

    /** `collection.objects.link(obj)`: the object must not be in it yet. */
    method Link(id: ObjectId, c: string)
      requires Valid() && id in objects && c in collections && Named(c) !in objects[id].users
      modifies this`objects
      ensures Valid()
      ensures objects == old(objects)[id := old(objects)[id].(users := old(objects)[id].users + {Named(c)})]
    {
      objects := objects[id := objects[id].(users := objects[id].users + {Named(c)})];
    }

    /** The relink: the object leaves every collection in its
        `users_collection`, one at a time, and then joins `target`, so that
        `target` is its only collection whatever it was in before. */
    method MoveToCollection(id: ObjectId, target: string)
      requires Valid() && id in objects && target in collections
      modifies this`objects
      ensures Valid()
      ensures objects == old(objects)[id := old(objects)[id].(users := {Named(target)})]
    {
      var linked := objects[id].users;
      assert objects == old(objects)[id := old(objects)[id].(users := linked)];
      while linked != {}
        invariant Valid() && id in objects
        invariant objects == old(objects)[id := old(objects)[id].(users := linked)]
        decreases linked
      {
        var c :| c in linked;
        Unlink(id, c);
        linked := linked - {c};
      }
      Link(id, target);
      assert {} + {Named(target)} == {Named(target)};
    }

    /** Lines 20-31 of `import_fbx_file`: the join keeps the first mesh and
        absorbs the other meshes, and the loop deletes every non-mesh object. */
    method Prune(meshObjects: seq<ObjectId>, nonMeshObjects: seq<ObjectId>) returns (joined: ObjectId)
      requires Valid()
      requires meshObjects != [] && Distinct(meshObjects) && Distinct(nonMeshObjects)
      requires forall id :: id in meshObjects ==> id in objects && id !in nonMeshObjects
      requires forall id :: id in nonMeshObjects ==> id in objects
      modifies this`objects
      ensures Valid()
      ensures joined == meshObjects[0]
      ensures objects == old(objects) - Elements(meshObjects[1..]) - Elements(nonMeshObjects)
      ensures joined in objects && objects[joined] == old(objects)[joined]
    {
      JoinMeshes(meshObjects);
      joined := meshObjects[0];
      assert joined !in nonMeshObjects;
      RemoveObjects(nonMeshObjects);
    }

    /** Lines 34-48 of `import_fbx_file`: the kept object is renamed to
        `fbxName` and ends up in the collection `collectionName` and in no
        other, that collection being created under the scene's root when
        missing. */
    method RenameAndRelink(id: ObjectId, fbxName: string, collectionName: string)
      requires Valid() && id in objects
      modifies this`objects, this`collections, this`rootChildren
      ensures Valid()
      ensures objects == old(objects)[id := SceneObject(fbxName, old(objects)[id].kind, {Named(collectionName)})]
      ensures collections == old(collections) + {collectionName}
      ensures collectionName in old(collections) ==> rootChildren == old(rootChildren)
      ensures collectionName !in old(collections) ==> rootChildren == old(rootChildren) + [collectionName]
    {
      ghost var kept := objects[id];
      ghost var rest := objects;
      Rename(id, fbxName);
      GetOrCreateCollection(collectionName);
      MoveToCollection(id, collectionName);
      UpdateTwice(rest, id, kept.(name := fbxName), SceneObject(fbxName, kept.kind, {Named(collectionName)}));
    }

    /** `import_fbx_file(path)`, given what the decoder makes of the file
        (`None` when the import operator raises). On success the scene holds
        exactly one new object: the first imported mesh, named after the file
        and linked into the folder's collection and nowhere else; every other
        imported object is gone and every earlier object is untouched. */
    method ImportFbxFile(path: string, decoded: Option<seq<SceneObject>>) returns (r: Result<ObjectId>)
      requires Valid()
      requires decoded.Some? ==> forall o :: o in decoded.value ==> UsersIn(o.users, collections)
      modifies this
      ensures Valid()
      ensures r.Success? <==> decoded.Some? && HasMesh(decoded.value)
      ensures decoded.None? ==> r == Failure(DecodeFailed) && objects == old(objects)
      ensures decoded.Some? && !HasMesh(decoded.value) ==>
        r == Failure(NoMeshContent) && objects == old(objects) + Placed(old(nextId), decoded.value)
      ensures r.Failure? ==> collections == old(collections) && rootChildren == old(rootChildren)
      ensures r.Success? ==>
        var c := CollectionName(path);
        && r.value !in old(objects)
        && objects == old(objects)[r.value := SceneObject(Stem(path), Mesh, {Named(c)})]
        && collections == old(collections) + {c}
        && rootChildren == if c in old(collections) then old(rootChildren) else old(rootChildren) + [c]
      ensures r.Success? ==>
        exists k :: (0 <= k < |decoded.value| && r.value == old(nextId) + k && decoded.value[k].kind == Mesh
          && forall j :: 0 <= j < k ==> decoded.value[j].kind != Mesh)
      ensures old(collections) <= collections && |collections| <= |old(collections)| + 1
      ensures Keeps(old(objects), objects)
    {
      if decoded.None? {
        return Failure(DecodeFailed);
      }
      var created := decoded.value;
      ghost var before := objects;
      var imported := PlaceImported(created);
      ghost var placed := objects;
      var meshObjects := MeshObjects(imported, objects);
      var nonMeshObjects := NonMeshObjects(imported, objects);
      ImportedKinds(before, old(nextId), created, imported);
      FirstImportedMesh(objects, old(nextId), created, imported);
      PartitionDistinct(imported, objects);
      if meshObjects == [] {
        PlacedKeepsOld(before, old(nextId), created);
        KeepsUnion(before, Placed(old(nextId), created));
        return Failure(NoMeshContent);
      }
      ghost var first :| 0 <= first < |created| && meshObjects[0] == old(nextId) + first
        && created[first].kind == Mesh && forall j :: 0 <= j < first ==> created[j].kind != Mesh;

      var joined := Prune(meshObjects, nonMeshObjects);
      RenameAndRelink(joined, Stem(path), CollectionName(path));
      OnlyJoinedRemains(before, old(nextId), created, imported, meshObjects, nonMeshObjects);
      UpdateTwice(before, joined, placed[joined], SceneObject(Stem(path), Mesh, {Named(CollectionName(path))}));
      assert joined !in before;
      KeepsUpdate(before, joined, SceneObject(Stem(path), Mesh, {Named(CollectionName(path))}));
      GrowByOne(old(collections), CollectionName(path));
      return Success(joined);
    }
  }

  /** The handles of a decoder run placed from `start` name the created
      objects, in order. */
  lemma ImportedKinds(before: map<ObjectId, SceneObject>, start: nat, created: seq<SceneObject>,
                      imported: seq<ObjectId>)
    requires forall id :: id in before ==> id < start
    requires |imported| == |created| && forall i :: 0 <= i < |imported| ==> imported[i] == start + i
    ensures forall i :: 0 <= i < |imported| ==>
      imported[i] in before + Placed(start, created) && (before + Placed(start, created))[imported[i]] == created[i]
    ensures Distinct(imported)
  {
  }

  /** There is a mesh to keep exactly when the decoder made one, and the
      kept one is the first mesh in the selection order. */
  lemma FirstImportedMesh(objects: map<ObjectId, SceneObject>, start: nat, created: seq<SceneObject>,
                          imported: seq<ObjectId>)
    requires |imported| == |created| && forall i :: 0 <= i < |imported| ==> imported[i] == start + i
    requires forall i :: 0 <= i < |imported| ==> imported[i] in objects && objects[imported[i]] == created[i]
    ensures MeshObjects(imported, objects) != [] <==> HasMesh(created)
    ensures MeshObjects(imported, objects) != [] ==>
      exists k :: (0 <= k < |created| && MeshObjects(imported, objects)[0] == start + k
        && created[k].kind == Mesh && forall j :: 0 <= j < k ==> created[j].kind != Mesh)
  {
    var meshes := MeshObjects(imported, objects);
    Partition(imported, objects);
    if HasMesh(created) {
      var i :| 0 <= i < |created| && created[i].kind == Mesh;
      assert IsMeshIn(objects, imported[i]);
      assert imported[i] in meshes;
    }
    if meshes != [] {
      FirstMesh(imported, objects);
      var k :| 0 <= k < |imported| && imported[k] == meshes[0] &&
        IsMeshIn(objects, imported[k]) && forall j :: 0 <= j < k ==> !IsMeshIn(objects, imported[j]);
      assert forall j :: 0 <= j < k ==> created[j].kind != Mesh by {
        forall j | 0 <= j < k ensures created[j].kind != Mesh {
          assert !IsMeshIn(objects, imported[j]);
        }
      }
    }
  }

  /** Objects placed from `start` on leave the objects below `start` as they were. */
  lemma PlacedKeepsOld(before: map<ObjectId, SceneObject>, start: nat, created: seq<SceneObject>)
    requires forall id :: id in before ==> id < start
    ensures forall id :: id in before ==>
      id in before + Placed(start, created) && (before + Placed(start, created))[id] == before[id]
  {
  }

  /** Every object of `before` is still in `after`, unchanged. */
  predicate Keeps(before: map<ObjectId, SceneObject>, after: map<ObjectId, SceneObject>) {
    forall id :: id in before ==> id in after && after[id] == before[id]
  }

  /** Adding an object under a fresh handle keeps every other object. */
  lemma KeepsUpdate(m: map<ObjectId, SceneObject>, k: ObjectId, v: SceneObject)
    requires k !in m
    ensures Keeps(m, m[k := v])
  {
  }

  /** Adding objects under fresh handles keeps every other object. */
  lemma KeepsUnion(m: map<ObjectId, SceneObject>, n: map<ObjectId, SceneObject>)
    requires forall id :: id in n ==> id !in m
    ensures Keeps(m, m + n)
  {
  }

  /** Keeping is transitive across successive imports. */
  lemma KeepsTrans(a: map<ObjectId, SceneObject>, b: map<ObjectId, SceneObject>, c: map<ObjectId, SceneObject>)
    requires Keeps(a, b) && Keeps(b, c)
    ensures Keeps(a, c)
  {
  }

  /** Adding one name to a set of names grows it by at most one. */
  lemma GrowByOne(s: set<string>, x: string)
    ensures s <= s + {x} && |s + {x}| <= |s| + 1
  {
    if x !in s {
      assert |s + {x}| == |s| + 1;
    } else {
      assert s + {x} == s;
    }
  }

  /** A second update of the same key overrides the first. */
  lemma UpdateTwice(m: map<ObjectId, SceneObject>, k: ObjectId, a: SceneObject, b: SceneObject)
    ensures m[k := a][k := b] == m[k := b]
  {
  }

  /** After the join and the deletion loop, the decoder's objects are gone
      except the mesh kept by the join, and the earlier objects are as they were. */
  lemma OnlyJoinedRemains(before: map<ObjectId, SceneObject>, start: nat, created: seq<SceneObject>,
                          imported: seq<ObjectId>, meshes: seq<ObjectId>, others: seq<ObjectId>)
    requires forall id :: id in before ==> id < start
    requires |imported| == |created| && forall i :: 0 <= i < |imported| ==> imported[i] == start + i
    requires meshes != [] && Distinct(meshes)
    requires forall id :: id in imported ==> id in meshes || id in others
    requires forall id :: id in meshes || id in others ==> id in imported
    requires meshes[0] !in others
    ensures before + Placed(start, created) - Elements(meshes[1..]) - Elements(others)
      == before[meshes[0] := Placed(start, created)[meshes[0]]]
  {
    var placed := Placed(start, created);
    var result := before + placed - Elements(meshes[1..]) - Elements(others);
    assert meshes[0] !in meshes[1..] by {
      forall k | 0 <= k < |meshes[1..]| ensures meshes[1..][k] != meshes[0] {
        assert meshes[1..][k] == meshes[k + 1];
      }
    }
    forall id | id in placed && id != meshes[0] ensures id in meshes[1..] || id in others {
      assert id in imported by {
        assert imported[id - start] == id;
      }
      if id in meshes {
        var k :| 0 <= k < |meshes| && meshes[k] == id;
        assert meshes[1..][k - 1] == id;
      }
    }
    forall id | id in meshes[1..] || id in others ensures id !in before {
      if id in meshes[1..] {
        assert id in meshes;
      }
      var i :| 0 <= i < |imported| && imported[i] == id;
    }
    assert result.Keys == (before[meshes[0] := placed[meshes[0]]]).Keys;
  }
}
