/** The folder operator: walk a directory tree and run `import_fbx_file` on
    every file whose name ends in `.fbx`. */
module Folder {
  import opened Paths
  import opened Objects
  import opened Scenes

  /** One step of `os.walk`: a directory and the names of the files directly
      in it, in listing order. */
  datatype WalkEntry = WalkEntry(root: string, files: seq<string>)

  /** File names from a directory listing never contain a separator. */
  predicate WellFormedWalk(walk: seq<WalkEntry>) {
    forall i, f :: 0 <= i < |walk| && f in walk[i].files ==> Sep !in f
  }

  /** The paths handed to `import_fbx_file` for one directory, in listing order. */
  function FbxPathsIn(root: string, files: seq<string>): (r: seq<string>)
    ensures |r| <= |files|
  {
    if files == [] then []
    else
      var last := files[|files| - 1];
      FbxPathsIn(root, files[..|files| - 1]) + (if IsFbxName(last) then [Join(root, last)] else [])
  }

  /** How many file names the walk lists. */
  function FileCount(walk: seq<WalkEntry>): nat {
    if walk == [] then 0 else FileCount(walk[..|walk| - 1]) + |walk[|walk| - 1].files|
  }

  /** The paths handed to `import_fbx_file` for a whole walk, in walk order. */
  function FbxPaths(walk: seq<WalkEntry>): (r: seq<string>)
    ensures |r| <= FileCount(walk)
  {
    if walk == [] then []
    else
      var last := walk[|walk| - 1];
      FbxPaths(walk[..|walk| - 1]) + FbxPathsIn(last.root, last.files)
  }

  /** Listing more files appends their paths after the earlier ones. */
  lemma {:induction false} FbxPathsInAppend(root: string, a: seq<string>, b: seq<string>)
    ensures FbxPathsIn(root, a + b) == FbxPathsIn(root, a) + FbxPathsIn(root, b)
  {
    if b == [] {
      assert a + b == a;
    } else {
      var b', last := b[..|b| - 1], b[|b| - 1];
      assert (a + b)[..|a + b| - 1] == a + b' && (a + b)[|a + b| - 1] == last;
      FbxPathsInAppend(root, a, b');
    }
  }

  /** Walking more directories appends their paths after the earlier ones:
      the operator's calls follow walk order. */
  lemma {:induction false} FbxPathsAppend(a: seq<WalkEntry>, b: seq<WalkEntry>)
    ensures FbxPaths(a + b) == FbxPaths(a) + FbxPaths(b)
  {
    if b == [] {
      assert a + b == a;
    } else {
      var b', last := b[..|b| - 1], b[|b| - 1];
      assert (a + b)[..|a + b| - 1] == a + b' && (a + b)[|a + b| - 1] == last;
      assert FbxPaths(a + b) == FbxPaths(a + b') + FbxPathsIn(last.root, last.files);
      assert FbxPaths(b) == FbxPaths(b') + FbxPathsIn(last.root, last.files);
      FbxPathsAppend(a, b');
    }
  }

  /** Every path handed on for a directory joins it with one of its `.fbx`
      files, returned as `f`. */
  lemma {:induction false} FbxPathsInSource(root: string, files: seq<string>, p: string) returns (f: string)
    requires p in FbxPathsIn(root, files)
    ensures f in files && IsFbxName(f) && p == Join(root, f)
  {
    var init, last := files[..|files| - 1], files[|files| - 1];
    assert files == init + [last];
    if p in FbxPathsIn(root, init) {
      f := FbxPathsInSource(root, init, p);
    } else {
      f := last;
    }
  }

  /** Each `.fbx` file of a directory has its joined path handed on. */
  lemma {:induction false} FbxPathsInHas(root: string, files: seq<string>, f: string)
    requires f in files && IsFbxName(f)
    ensures Join(root, f) in FbxPathsIn(root, files)
  {
    var init, last := files[..|files| - 1], files[|files| - 1];
    assert files == init + [last];
    if f != last {
      FbxPathsInHas(root, init, f);
    }
  }

  /** A path is handed on for a directory exactly when it joins the directory
      with one of its `.fbx` files. */
  lemma {:induction false} FbxPathsInMembers(root: string, files: seq<string>, p: string)
    ensures p in FbxPathsIn(root, files) <==> exists f :: f in files && IsFbxName(f) && p == Join(root, f)
  {
    if p in FbxPathsIn(root, files) {
      var f := FbxPathsInSource(root, files, p);
    }
    if exists f :: f in files && IsFbxName(f) && p == Join(root, f) {
      var f :| f in files && IsFbxName(f) && p == Join(root, f);
      FbxPathsInHas(root, files, f);
    }
  }

  /** A path is handed on for a walk exactly when it joins some walked
      directory with one of that directory's `.fbx` files. */
  lemma {:induction false} FbxPathsMembers(walk: seq<WalkEntry>, p: string)
    ensures p in FbxPaths(walk) <==>
      exists i, f :: 0 <= i < |walk| && f in walk[i].files && IsFbxName(f) && p == Join(walk[i].root, f)
  {
    if walk != [] {
      var init, last := walk[..|walk| - 1], walk[|walk| - 1];
      FbxPathsMembers(init, p);
      FbxPathsInMembers(last.root, last.files, p);
      if exists i, f :: 0 <= i < |walk| && f in walk[i].files && IsFbxName(f) && p == Join(walk[i].root, f) {
        var i, f :| 0 <= i < |walk| && f in walk[i].files && IsFbxName(f) && p == Join(walk[i].root, f);
        if i < |walk| - 1 {
          assert init[i] == walk[i];
        }
      }
      if p in FbxPaths(init) {
        var i, f :| 0 <= i < |init| && f in init[i].files && IsFbxName(f) && p == Join(init[i].root, f);
        assert walk[i] == init[i];
      }
    }
  }

  /** One call per `.fbx` file: the number of paths handed on for a directory
      is the number of its file names that pass the filter. */
  lemma {:induction false} FbxPathsInCount(root: string, files: seq<string>)
    ensures |FbxPathsIn(root, files)| == |Filter(files, IsFbxName)|
  {
    if files != [] {
      var init, last := files[..|files| - 1], files[|files| - 1];
      assert files == init + [last];
      FbxPathsInCount(root, init);
      FilterAppend(init, [last], IsFbxName);
      assert Filter([last], IsFbxName) == (if IsFbxName(last) then [last] else []) + Filter([], IsFbxName);
    }
  }

  /** Every path handed on names a `.fbx` file, and a listed file whose name
      does not end in `.fbx` (such as `model.FBX`) is never handed on. */
  lemma OnlyFbxFilesPassed(walk: seq<WalkEntry>, i: nat, f: string)
    requires WellFormedWalk(walk)
    requires i < |walk| && f in walk[i].files
    ensures Join(walk[i].root, f) in FbxPaths(walk) <==> IsFbxName(f)
  {
    var p := Join(walk[i].root, f);
    FbxPathsMembers(walk, p);
    BasenameOfJoin(walk[i].root, f);
    if p in FbxPaths(walk) {
      var i', f' :| 0 <= i' < |walk| && f' in walk[i'].files && IsFbxName(f') && p == Join(walk[i'].root, f');
      BasenameOfJoin(walk[i'].root, f');
    }
  }

  /** Where a walked `.fbx` file ends up: in the collection named after its
      directory, as an object named after the file without `.fbx`. */
  lemma WalkedFileNaming(root: string, f: string)
    requires Sep !in f && IsFbxName(f)
    ensures CollectionName(Join(root, f)) == Basename(RStripSep(root))
    ensures !AllOf(f[..|f| - 4], ExtSep) ==> Stem(Join(root, f)) == f[..|f| - 4]
  {
    if AllOf(root, Sep) {
      CollectionOfJoinAllSep(root, f);
    } else {
      DirnameOfJoin(root, f);
    }
    StemOfFbxFile(root, f);
  }

  /** How the operator ends: it returns 'FINISHED', or an exception from
      `import_fbx_file` ends the whole walk. */
  datatype Status = Finished | Raised(error: ImportError)

  /** `import_fbx_file` succeeds on a file the decoder reads this way. */
  predicate Importable(decoded: Option<seq<SceneObject>>) {
    decoded.Some? && HasMesh(decoded.value)
  }

  /** Whatever the decoder makes links only into existing collections. */
  ghost predicate DecodesFit(decode: string -> Option<seq<SceneObject>>, collections: set<string>) {
    forall p :: decode(p).Some? ==> forall o :: o in decode(p).value ==> UsersIn(o.users, collections)
  }

  /** Every path in `paths` was imported. */
  predicate AllImported(paths: seq<string>, decode: string -> Option<seq<SceneObject>>) {
    forall k :: 0 <= k < |paths| ==> Importable(decode(paths[k]))
  }

  /** The object `import_fbx_file` leaves behind for the file at `p`: a mesh
      named after the file, linked into the folder's collection only. */
  function Filed(p: string): SceneObject {
    SceneObject(Stem(p), Mesh, {Named(CollectionName(p))})
  }

  /** `made[k]` is the one object the import of `paths[k]` added: absent from
      `before`, present in `after` as `f(paths[k])`, and no two paths share
      an object. */
  predicate Made(before: map<ObjectId, SceneObject>, after: map<ObjectId, SceneObject>,
                 made: seq<ObjectId>, paths: seq<string>, f: string -> SceneObject) {
    && |made| == |paths| && Distinct(made)
    && forall k :: 0 <= k < |made| ==>
      made[k] !in before && made[k] in after && after[made[k]] == f(paths[k])
  }

  /** Every object of `after` was in `before` already or is one of `made`. */
  predicate OnlyMade(before: map<ObjectId, SceneObject>, after: map<ObjectId, SceneObject>, made: seq<ObjectId>) {
    forall id :: id in after ==> id in before || id in made
  }

  /** The collection names of `paths` under the naming `g`, in order. */
  function Names(paths: seq<string>, g: string -> string): (r: seq<string>)
    ensures |r| == |paths|
  {
    if paths == [] then [] else Names(paths[..|paths| - 1], g) + [g(paths[|paths| - 1])]
  }

  /** The names in `names`, as a set. */
  function NameSet(names: seq<string>): (s: set<string>)
    ensures forall n :: n in s <==> n in names
  {
    set n | n in names
  }

  /** The names appended to the root collection's children when a collection
      is looked up or created for each of `names` in turn, starting from the
      collections `known`: each name neither known nor met earlier, in order
      of first use. */
  function NewNames(known: set<string>, names: seq<string>): seq<string> {
    if names == [] then []
    else
      var init, n := names[..|names| - 1], names[|names| - 1];
      NewNames(known, init) + if n in known || n in init then [] else [n]
  }

  /** The root collection gains exactly the names not known before, each
      once. */
  lemma {:induction false} NewNamesMembers(known: set<string>, names: seq<string>)
    ensures forall n :: n in NewNames(known, names) <==> n in names && n !in known
    ensures Distinct(NewNames(known, names))
  {
    if names != [] {
      var init, n := names[..|names| - 1], names[|names| - 1];
      assert names == init + [n];
      NewNamesMembers(known, init);
      var r := NewNames(known, names);
      forall i, j | 0 <= i < j < |r| ensures r[i] != r[j] {
        if j == |r| - 1 && !(n in known || n in init) {
          assert r[i] in NewNames(known, init);
        }
      }
    }
  }

  /** Looking up or creating the collections of `a` and then those of `b`
      appends the new names of `a`, then those of `b` that neither the known
      collections nor `a` had. */
  lemma {:induction false} NewNamesAppend(known: set<string>, a: seq<string>, b: seq<string>)
    ensures NewNames(known, a + b) == NewNames(known, a) + NewNames(known + NameSet(a), b)
  {
    if b == [] {
      assert a + b == a;
    } else {
      var b', n := b[..|b| - 1], b[|b| - 1];
      assert (a + b)[..|a + b| - 1] == a + b' && (a + b)[|a + b| - 1] == n;
      NewNamesAppend(known, a, b');
      assert n in a + b' <==> n in a || n in b';
    }
  }

  /** The collections and the root's children after `import_fbx_file` filed
      one object for each of `paths`, from `collections0` and `root0`: every
      file's collection exists, nothing else was added, and the root gained
      the collections that did not exist, in order of first use. */
  predicate Grown(collections0: set<string>, root0: seq<string>, collections: set<string>, root: seq<string>,
                  paths: seq<string>, g: string -> string) {
    && collections == collections0 + NameSet(Names(paths, g))
    && root == root0 + NewNames(collections0, Names(paths, g))
  }

  /** Nothing imported, nothing grown. */
  lemma GrownNone(collections: set<string>, root: seq<string>, g: string -> string)
    ensures Grown(collections, root, collections, root, [], g)
  {
    assert collections + NameSet([]) == collections;
    assert root + [] == root;
  }

  /** One more imported file looks up or creates its collection. */
  lemma GrownStep(collections0: set<string>, root0: seq<string>, collections: set<string>, root: seq<string>,
                  collections': set<string>, root': seq<string>, paths: seq<string>, p: string, g: string -> string)
    requires Grown(collections0, root0, collections, root, paths, g)
    requires collections' == collections + {g(p)}
    requires root' == if g(p) in collections then root else root + [g(p)]
    ensures Grown(collections0, root0, collections', root', paths + [p], g)
  {
    var names := Names(paths + [p], g);
    assert (paths + [p])[..|paths|] == paths && (paths + [p])[|paths|] == p;
    assert names == Names(paths, g) + [g(p)];
    assert names[..|names| - 1] == Names(paths, g) && names[|names| - 1] == g(p);
    assert NameSet(names) == NameSet(Names(paths, g)) + {g(p)};
  }

  /** The names of two successive runs of paths, in order. */
  lemma {:induction false} NamesAppend(a: seq<string>, b: seq<string>, g: string -> string)
    ensures Names(a + b, g) == Names(a, g) + Names(b, g)
  {
    if b == [] {
      assert a + b == a;
    } else {
      var b' := b[..|b| - 1];
      assert (a + b)[..|a + b| - 1] == a + b' && (a + b)[|a + b| - 1] == b[|b| - 1];
      NamesAppend(a, b', g);
    }
  }

  /** Two successive runs of imports grow the collections as one run. */
  lemma GrownAppend(c0: set<string>, r0: seq<string>, c1: set<string>, r1: seq<string>,
                    c2: set<string>, r2: seq<string>, a: seq<string>, b: seq<string>, g: string -> string)
    requires Grown(c0, r0, c1, r1, a, g) && Grown(c1, r1, c2, r2, b, g)
    ensures Grown(c0, r0, c2, r2, a + b, g)
  {
    var na, nb := Names(a, g), Names(b, g);
    NamesAppend(a, b, g);
    NewNamesAppend(c0, na, nb);
    NameSetAppend(na, nb);
    UnionTwice(c0, NameSet(na), NameSet(nb), c1, c2);
    ConcatTwice(r0, NewNames(c0, na), NewNames(c1, nb), r1, r2);
  }

  /** Adding `x` and then `y` to a set adds `x + y`. */
  lemma UnionTwice(s0: set<string>, x: set<string>, y: set<string>, s1: set<string>, s2: set<string>)
    requires s1 == s0 + x && s2 == s1 + y
    ensures s2 == s0 + (x + y)
  {
  }

  /** Appending `x` and then `y` to a list appends `x + y`. */
  lemma ConcatTwice(s0: seq<string>, x: seq<string>, y: seq<string>, s1: seq<string>, s2: seq<string>)
    requires s1 == s0 + x && s2 == s1 + y
    ensures s2 == s0 + (x + y)
  {
  }

  /** Growing adds at most one collection per path, removes none, and only
      appends to the root's children. */
  lemma GrownBounds(c0: set<string>, r0: seq<string>, c: set<string>, r: seq<string>,
                    paths: seq<string>, g: string -> string, n: nat)
    requires Grown(c0, r0, c, r, paths, g) && |paths| <= n
    ensures c0 <= c && |c| <= |c0| + n && r0 <= r
  {
    var names := Names(paths, g);
    NameSetSize(names);
    UnionSize(c0, NameSet(names));
  }

  /** A list of names has at most as many distinct names as entries. */
  lemma {:induction false} NameSetSize(names: seq<string>)
    ensures |NameSet(names)| <= |names|
  {
    if names != [] {
      var init := names[..|names| - 1];
      NameSetSize(init);
      assert names == init + [names[|names| - 1]];
      assert NameSet(names) == NameSet(init) + {names[|names| - 1]};
    }
  }

  /** A union is no larger than its parts together. */
  lemma UnionSize(a: set<string>, b: set<string>)
    ensures |a + b| <= |a| + |b|
  {
    assert a + b == a + (b - a);
    assert |a + (b - a)| == |a| + |b - a|;
    assert b - a <= b;
  }

  /** The names of a concatenation, as a set. */
  lemma NameSetAppend(a: seq<string>, b: seq<string>)
    ensures NameSet(a + b) == NameSet(a) + NameSet(b)
  {
  }

  /** `FBXImportFolderOperator.execute`, given the walk of the chosen folder
      and what the decoder makes of each file. `visited` is what the operator
      prints: the paths it handed to `import_fbx_file`, in order. All `.fbx`
      paths of the walk are handed on unless one raises, which ends the walk
      there. Every file before it was imported: `made` lists the object each
      one left in the scene, named after the file and in its folder's
      collection. When the walk finishes these are the only new objects.
      There is at most one new collection per file, and no object that
      existed before is changed. */
  method ImportFolder(scene: Scene, walk: seq<WalkEntry>, decode: string -> Option<seq<SceneObject>>)
    returns (visited: seq<string>, status: Status, ghost made: seq<ObjectId>)
    requires scene.Valid()
    requires DecodesFit(decode, scene.collections)
    modifies scene
    ensures scene.Valid()
    ensures visited <= FbxPaths(walk)
    ensures status.Finished? ==> visited == FbxPaths(walk) && AllImported(visited, decode)
    ensures status.Raised? ==>
      && visited != []
      && AllImported(visited[..|visited| - 1], decode)
      && !Importable(decode(visited[|visited| - 1]))
      && status.error == if decode(visited[|visited| - 1]).None? then DecodeFailed else NoMeshContent
    ensures old(scene.collections) <= scene.collections
    ensures |scene.collections| <= |old(scene.collections)| + |visited|
    ensures old(scene.rootChildren) <= scene.rootChildren
    ensures Keeps(old(scene.objects), scene.objects)
    ensures status.Finished? ==>
      Made(old(scene.objects), scene.objects, made, visited, Filed) && OnlyMade(old(scene.objects), scene.objects, made)
    ensures status.Raised? ==> Made(old(scene.objects), scene.objects, made, visited[..|visited| - 1], Filed)
    ensures status.Finished? ==>
      Grown(old(scene.collections), old(scene.rootChildren), scene.collections, scene.rootChildren, visited, CollectionName)
    ensures status.Raised? ==>
      Grown(old(scene.collections), old(scene.rootChildren), scene.collections, scene.rootChildren,
            visited[..|visited| - 1], CollectionName)
  {
    visited, made := [], [];
    GrownNone(scene.collections, scene.rootChildren, CollectionName);
    for i := 0 to |walk|
      invariant scene.Valid() && DecodesFit(decode, scene.collections)
      invariant visited == FbxPaths(walk[..i])
      invariant AllImported(visited, decode)
      invariant Keeps(old(scene.objects), scene.objects)
      invariant Made(old(scene.objects), scene.objects, made, visited, Filed)
      invariant OnlyMade(old(scene.objects), scene.objects, made)
      invariant Grown(old(scene.collections), old(scene.rootChildren), scene.collections, scene.rootChildren,
                      visited, CollectionName)
    {
      PrefixStep(walk, i);
      ghost var done := visited;
      ghost var objectsBefore := scene.objects;
      ghost var madeBefore := made;
      ghost var collectionsBefore, rootBefore := scene.collections, scene.rootChildren;
      var more, dirStatus, moreMade := ImportFilesIn(scene, walk[i].root, walk[i].files, decode);
      visited := visited + more;
      made := made + moreMade;
      KeepsTrans(old(scene.objects), objectsBefore, scene.objects);
      if dirStatus.Raised? {
        RaisedPrefix(walk, i, done, more);
        ImportedAppend(done, more[..|more| - 1], decode);
        MadeAppend(old(scene.objects), objectsBefore, scene.objects, madeBefore, moreMade, done, more[..|more| - 1], Filed);
        GrownAppend(old(scene.collections), old(scene.rootChildren), collectionsBefore, rootBefore,
                    scene.collections, scene.rootChildren, done, more[..|more| - 1], CollectionName);
        GrownBounds(old(scene.collections), old(scene.rootChildren), scene.collections, scene.rootChildren,
                    done + more[..|more| - 1], CollectionName, |visited|);
        return visited, dirStatus, made;
      }
      ImportedAppend(done, more, decode);
      MadeAppend(old(scene.objects), objectsBefore, scene.objects, madeBefore, moreMade, done, more, Filed);
      OnlyMadeAppend(old(scene.objects), objectsBefore, scene.objects, madeBefore, moreMade);
      GrownAppend(old(scene.collections), old(scene.rootChildren), collectionsBefore, rootBefore,
                  scene.collections, scene.rootChildren, done, more, CollectionName);
    }
    assert walk[..|walk|] == walk;
    GrownBounds(old(scene.collections), old(scene.rootChildren), scene.collections, scene.rootChildren,
                visited, CollectionName, |visited|);
    status := Finished;
  }

  /** The inner loop of the operator, over the files of one directory:
      the same promises as the whole walk, for this directory's paths. */
  method ImportFilesIn(scene: Scene, root: string, files: seq<string>, decode: string -> Option<seq<SceneObject>>)
    returns (visited: seq<string>, status: Status, ghost made: seq<ObjectId>)
    requires scene.Valid()
    requires DecodesFit(decode, scene.collections)
    modifies scene
    ensures scene.Valid() && DecodesFit(decode, scene.collections)
    ensures visited <= FbxPathsIn(root, files)
    ensures status.Finished? ==> visited == FbxPathsIn(root, files) && AllImported(visited, decode)
    ensures status.Raised? ==>
      && visited != []
      && AllImported(visited[..|visited| - 1], decode)
      && !Importable(decode(visited[|visited| - 1]))
      && status.error == if decode(visited[|visited| - 1]).None? then DecodeFailed else NoMeshContent
    ensures old(scene.collections) <= scene.collections
    ensures |scene.collections| <= |old(scene.collections)| + |visited|
    ensures old(scene.rootChildren) <= scene.rootChildren
    ensures Keeps(old(scene.objects), scene.objects)
    ensures status.Finished? ==>
      Made(old(scene.objects), scene.objects, made, visited, Filed) && OnlyMade(old(scene.objects), scene.objects, made)
    ensures status.Raised? ==> Made(old(scene.objects), scene.objects, made, visited[..|visited| - 1], Filed)
    ensures status.Finished? ==>
      Grown(old(scene.collections), old(scene.rootChildren), scene.collections, scene.rootChildren, visited, CollectionName)
    ensures status.Raised? ==>
      Grown(old(scene.collections), old(scene.rootChildren), scene.collections, scene.rootChildren,
            visited[..|visited| - 1], CollectionName)
  {
    visited, made := [], [];
    GrownNone(scene.collections, scene.rootChildren, CollectionName);
    for j := 0 to |files|
      invariant scene.Valid() && DecodesFit(decode, scene.collections)
      invariant visited == FbxPathsIn(root, files[..j])
      invariant AllImported(visited, decode)
      invariant Keeps(old(scene.objects), scene.objects)
      invariant Made(old(scene.objects), scene.objects, made, visited, Filed)
      invariant OnlyMade(old(scene.objects), scene.objects, made)
      invariant Grown(old(scene.collections), old(scene.rootChildren), scene.collections, scene.rootChildren,
                      visited, CollectionName)
    {
      FileStep(root, files, j);
      ghost var done := visited;
      ghost var collectionsBefore, rootBefore := scene.collections, scene.rootChildren;
      ghost var objectsBefore := scene.objects;
      var handed, fileStatus, id := ImportListed(scene, root, files[j], decode);
      visited := visited + handed;
      ListedStep(old(scene.objects), old(scene.collections), old(scene.rootChildren),
                 objectsBefore, collectionsBefore, rootBefore, scene.objects, scene.collections, scene.rootChildren,
                 made, done, handed, fileStatus, id, decode, Filed, CollectionName);
      if fileStatus.Raised? {
        return visited, fileStatus, made;
      }
      made := made + if handed == [] then [] else [id];
    }
    assert files[..|files|] == files;
    GrownBounds(old(scene.collections), old(scene.rootChildren), scene.collections, scene.rootChildren,
                visited, CollectionName, |visited|);
    status := Finished;
  }

  /** The body of the inner loop for one listed file name: a name ending in
      `.fbx` is joined to the directory and that path handed to
      `import_fbx_file` (`handed` is what is printed); any other name is
      skipped and nothing changes. A successful import adds exactly the
      object `id`, a mesh named after the file in its folder's collection,
      whose collection is looked up or created; a raising one leaves every
      earlier object and all collections as they were, and adds the decoded
      objects when the decoder ran but made no mesh. */
  method ImportListed(scene: Scene, root: string, fileName: string, decode: string -> Option<seq<SceneObject>>)
    returns (handed: seq<string>, status: Status, ghost id: ObjectId)
    requires scene.Valid() && DecodesFit(decode, scene.collections)
    modifies scene
    ensures scene.Valid() && DecodesFit(decode, scene.collections)
    ensures handed == if IsFbxName(fileName) then [Join(root, fileName)] else []
    ensures Keeps(old(scene.objects), scene.objects)
    ensures handed == [] ==>
      status.Finished? && scene.objects == old(scene.objects)
      && scene.collections == old(scene.collections) && scene.rootChildren == old(scene.rootChildren)
    ensures status.Raised? ==>
      && handed != [] && !Importable(decode(handed[0]))
      && status.error == (if decode(handed[0]).None? then DecodeFailed else NoMeshContent)
      && Keeps(old(scene.objects), scene.objects)
      && scene.objects == (if decode(handed[0]).None? then old(scene.objects)
                           else old(scene.objects) + Placed(old(scene.nextId), decode(handed[0]).value))
      && scene.collections == old(scene.collections) && scene.rootChildren == old(scene.rootChildren)
    ensures status.Finished? && handed != [] ==>
      var c := CollectionName(handed[0]);
      && Importable(decode(handed[0]))
      && id !in old(scene.objects) && scene.objects == old(scene.objects)[id := Filed(handed[0])]
      && scene.collections == old(scene.collections) + {c}
      && scene.rootChildren == if c in old(scene.collections) then old(scene.rootChildren) else old(scene.rootChildren) + [c]
  {
    handed, status, id := [], Finished, 0;
    if IsFbxName(fileName) {
      var fbxPath := Join(root, fileName);
      handed := [fbxPath];
      ghost var collectionsBefore := scene.collections;
      var r := scene.ImportFbxFile(fbxPath, decode(fbxPath));
      ImportKeepsFit(decode, collectionsBefore, scene.collections);
      if r.Failure? {
        status := Raised(r.error);
      } else {
        id := r.value;
      }
    }
  }

  /** What one listed file name does to the walk so far: a skipped name
      changes nothing, an imported file adds its object and its collection,
      and a raising one leaves what the earlier files made. */
  lemma ListedStep(objects0: map<ObjectId, SceneObject>, collections0: set<string>, root0: seq<string>,
                   objects: map<ObjectId, SceneObject>, collections: set<string>, root: seq<string>,
                   objects': map<ObjectId, SceneObject>, collections': set<string>, root': seq<string>,
                   made: seq<ObjectId>, paths: seq<string>, handed: seq<string>, status: Status, id: ObjectId,
                   decode: string -> Option<seq<SceneObject>>, f: string -> SceneObject, g: string -> string)
    requires Made(objects0, objects, made, paths, f) && OnlyMade(objects0, objects, made) && Keeps(objects0, objects)
    requires Grown(collections0, root0, collections, root, paths, g) && AllImported(paths, decode)
    requires |handed| <= 1 && Keeps(objects, objects')
    requires handed == [] ==>
      status.Finished? && objects' == objects && collections' == collections && root' == root
    requires status.Raised? ==>
      && handed != [] && !Importable(decode(handed[0]))
      && collections' == collections && root' == root
    requires status.Finished? && handed != [] ==>
      && Importable(decode(handed[0]))
      && id !in objects && objects' == objects[id := f(handed[0])]
      && collections' == collections + {g(handed[0])}
      && root' == if g(handed[0]) in collections then root else root + [g(handed[0])]
    ensures Keeps(objects0, objects')
    ensures status.Finished? ==>
      var made' := made + if handed == [] then [] else [id];
      && Made(objects0, objects', made', paths + handed, f) && OnlyMade(objects0, objects', made')
      && Grown(collections0, root0, collections', root', paths + handed, g)
      && AllImported(paths + handed, decode)
    ensures status.Raised? ==>
      var visited := paths + handed;
      && visited != [] && visited[|visited| - 1] == handed[0]
      && Made(objects0, objects', made, visited[..|visited| - 1], f)
      && Grown(collections0, root0, collections', root', visited[..|visited| - 1], g)
      && AllImported(visited[..|visited| - 1], decode)
      && collections0 <= collections' && |collections'| <= |collections0| + |visited| && root0 <= root'
  {
    KeepsTrans(objects0, objects, objects');
    if handed == [] {
      assert paths + handed == paths && made + [] == made;
    } else {
      assert handed == [handed[0]];
      if status.Raised? {
        FileFailed(objects0, collections0, root0, objects, collections, root, objects',
                   made, paths, handed[0], decode, f, g);
      } else {
        FileImported(objects0, collections0, root0, objects, collections, root, objects', collections', root',
                     made, paths, id, handed[0], decode, f, g);
      }
    }
  }

  /** One more file imported: its object joins the list, its collection is
      looked up or created, and it counts as imported. */
  lemma FileImported(objects0: map<ObjectId, SceneObject>, collections0: set<string>, root0: seq<string>,
                     objects: map<ObjectId, SceneObject>, collections: set<string>, root: seq<string>,
                     objects': map<ObjectId, SceneObject>, collections': set<string>, root': seq<string>,
                     made: seq<ObjectId>, paths: seq<string>, id: ObjectId, p: string,
                     decode: string -> Option<seq<SceneObject>>, f: string -> SceneObject, g: string -> string)
    requires Made(objects0, objects, made, paths, f) && OnlyMade(objects0, objects, made) && Keeps(objects0, objects)
    requires Grown(collections0, root0, collections, root, paths, g) && AllImported(paths, decode)
    requires id !in objects && objects' == objects[id := f(p)]
    requires collections' == collections + {g(p)}
    requires root' == if g(p) in collections then root else root + [g(p)]
    requires Importable(decode(p))
    ensures Made(objects0, objects', made + [id], paths + [p], f) && OnlyMade(objects0, objects', made + [id])
    ensures Grown(collections0, root0, collections', root', paths + [p], g)
    ensures AllImported(paths + [p], decode)
  {
    MadeStep(objects0, objects, objects', made, paths, id, p, f);
    GrownStep(collections0, root0, collections, root, collections', root', paths, p, g);
    ImportedOne(p, decode);
    ImportedAppend(paths, [p], decode);
  }

  /** A file whose import raised: the files before it keep what they made
      and grew, and the walk's bounds hold with that file counted. */
  lemma FileFailed(objects0: map<ObjectId, SceneObject>, collections0: set<string>, root0: seq<string>,
                   objects: map<ObjectId, SceneObject>, collections: set<string>, root: seq<string>,
                   objects': map<ObjectId, SceneObject>, made: seq<ObjectId>, paths: seq<string>, p: string,
                   decode: string -> Option<seq<SceneObject>>, f: string -> SceneObject, g: string -> string)
    requires Made(objects0, objects, made, paths, f) && Keeps(objects, objects')
    requires Grown(collections0, root0, collections, root, paths, g) && AllImported(paths, decode)
    ensures var visited := paths + [p];
      && visited[|visited| - 1] == p
      && Made(objects0, objects', made, visited[..|visited| - 1], f)
      && Grown(collections0, root0, collections, root, visited[..|visited| - 1], g)
      && AllImported(visited[..|visited| - 1], decode)
      && collections0 <= collections && |collections| <= |collections0| + |visited| && root0 <= root
  {
    DropLast(paths, p);
    MadeKeeps(objects0, objects, objects', made, paths, f);
    GrownBounds(collections0, root0, collections, root, paths, g, |paths| + 1);
  }

  /** One more imported file adds its one object to the list. */
  lemma MadeStep(before: map<ObjectId, SceneObject>, mid: map<ObjectId, SceneObject>, after: map<ObjectId, SceneObject>,
                 made: seq<ObjectId>, paths: seq<string>, id: ObjectId, p: string, f: string -> SceneObject)
    requires Made(before, mid, made, paths, f) && OnlyMade(before, mid, made) && Keeps(before, mid)
    requires id !in mid && after == mid[id := f(p)]
    ensures Made(before, after, made + [id], paths + [p], f) && OnlyMade(before, after, made + [id])
  {
    forall k | 0 <= k < |made + [id]|
      ensures (made + [id])[k] !in before && (made + [id])[k] in after && after[(made + [id])[k]] == f((paths + [p])[k])
    {
      if k < |made| {
        assert (made + [id])[k] == made[k] && (paths + [p])[k] == paths[k];
      }
    }
  }

  /** Objects that later steps leave alone stay listed. */
  lemma MadeKeeps(before: map<ObjectId, SceneObject>, mid: map<ObjectId, SceneObject>, after: map<ObjectId, SceneObject>,
                  made: seq<ObjectId>, paths: seq<string>, f: string -> SceneObject)
    requires Made(before, mid, made, paths, f) && Keeps(mid, after)
    ensures Made(before, after, made, paths, f)
  {
  }

  /** The objects of two successive runs of imports, in order. */
  lemma MadeAppend(before: map<ObjectId, SceneObject>, mid: map<ObjectId, SceneObject>, after: map<ObjectId, SceneObject>,
                   made: seq<ObjectId>, more: seq<ObjectId>, paths: seq<string>, morePaths: seq<string>,
                   f: string -> SceneObject)
    requires Made(before, mid, made, paths, f) && Made(mid, after, more, morePaths, f)
    requires Keeps(before, mid) && Keeps(mid, after)
    ensures Made(before, after, made + more, paths + morePaths, f)
  {
    forall k | 0 <= k < |made + more|
      ensures (made + more)[k] !in before && (made + more)[k] in after
        && after[(made + more)[k]] == f((paths + morePaths)[k])
    {
      if k < |made| {
        assert (made + more)[k] == made[k] && (paths + morePaths)[k] == paths[k];
      } else {
        assert (made + more)[k] == more[k - |made|] && (paths + morePaths)[k] == morePaths[k - |made|];
      }
    }
    forall i, j | 0 <= i < j < |made + more| ensures (made + more)[i] != (made + more)[j] {
      if i < |made| && j >= |made| {
        assert (made + more)[i] == made[i] && made[i] in mid;
        assert (made + more)[j] == more[j - |made|] && more[j - |made|] !in mid;
      } else if i < |made| {
        assert (made + more)[i] == made[i] && (made + more)[j] == made[j];
      } else {
        assert (made + more)[i] == more[i - |made|] && (made + more)[j] == more[j - |made|];
      }
    }
  }

  /** Nothing but the listed objects is added by two successive runs. */
  lemma OnlyMadeAppend(before: map<ObjectId, SceneObject>, mid: map<ObjectId, SceneObject>, after: map<ObjectId, SceneObject>,
                       made: seq<ObjectId>, more: seq<ObjectId>)
    requires OnlyMade(before, mid, made) && OnlyMade(mid, after, more)
    ensures OnlyMade(before, after, made + more)
  {
  }

  /** When a directory's import stops early, the paths handed on so far are
      still a prefix of the walk's paths, and the last of them is the
      directory's last one. */
  lemma RaisedPrefix(walk: seq<WalkEntry>, i: nat, done: seq<string>, more: seq<string>)
    requires i < |walk| && done == FbxPaths(walk[..i])
    requires more != [] && more <= FbxPathsIn(walk[i].root, walk[i].files)
    ensures done + more <= FbxPaths(walk)
    ensures (done + more)[..|done + more| - 1] == done + more[..|more| - 1]
    ensures (done + more)[|done + more| - 1] == more[|more| - 1]
  {
    PrefixStep(walk, i);
    PrefixOfAppend(done, more, FbxPathsIn(walk[i].root, walk[i].files), FbxPaths(walk));
  }

  /** Extending a prefix of `all` keeps `done + more` a prefix of `whole`. */
  lemma PrefixOfAppend<T>(done: seq<T>, more: seq<T>, all: seq<T>, whole: seq<T>)
    requires more != [] && more <= all && done + all <= whole
    ensures done + more <= whole
    ensures (done + more)[..|done + more| - 1] == done + more[..|more| - 1]
    ensures (done + more)[|done + more| - 1] == more[|more| - 1]
  {
    assert done + more == (done + all)[..|done + more|];
  }

  /** Appending a path and dropping the last one gives back the list. */
  lemma DropLast(paths: seq<string>, p: string)
    ensures (paths + [p])[..|paths|] == paths && (paths + [p])[|paths|] == p
  {
  }

  /** A single imported file. */
  lemma ImportedOne(p: string, decode: string -> Option<seq<SceneObject>>)
    requires Importable(decode(p))
    ensures AllImported([p], decode)
  {
  }

  /** Two runs of imported files make one. */
  lemma ImportedAppend(a: seq<string>, b: seq<string>, decode: string -> Option<seq<SceneObject>>)
    requires AllImported(a, decode) && AllImported(b, decode)
    ensures AllImported(a + b, decode)
  {
    forall k | 0 <= k < |a + b|
      ensures Importable(decode((a + b)[k]))
    {
      if k >= |a| { assert (a + b)[k] == b[k - |a|]; }
    }
  }

  /** Growing the set of collections keeps the decoder's links valid. */
  lemma ImportKeepsFit(decode: string -> Option<seq<SceneObject>>, collections: set<string>, grown: set<string>)
    requires DecodesFit(decode, collections) && collections <= grown
    ensures DecodesFit(decode, grown)
  {
  }

  /** The paths of the first `i + 1` directories extend those of the first
      `i`, and are a prefix of the walk's paths. */
  lemma PrefixStep(walk: seq<WalkEntry>, i: nat)
    requires i < |walk|
    ensures FbxPaths(walk[..i + 1]) == FbxPaths(walk[..i]) + FbxPathsIn(walk[i].root, walk[i].files)
    ensures FbxPaths(walk[..i + 1]) <= FbxPaths(walk)
  {
    var w := walk[..i + 1];
    assert w[..|w| - 1] == walk[..i] && w[|w| - 1] == walk[i];
    WalkPrefix(walk, i + 1);
  }

  /** The paths of the first `n` directories are a prefix of the walk's paths. */
  lemma WalkPrefix(walk: seq<WalkEntry>, n: nat)
    requires n <= |walk|
    ensures FbxPaths(walk[..n]) <= FbxPaths(walk)
  {
    assert walk == walk[..n] + walk[n..];
    FbxPathsAppend(walk[..n], walk[n..]);
  }

  /** Listing one more file of a directory hands on its path when it passes
      the filter; the paths so far are a prefix of the directory's paths. */
  lemma FileStep(root: string, files: seq<string>, j: nat)
    requires j < |files|
    ensures FbxPathsIn(root, files[..j + 1]) ==
      FbxPathsIn(root, files[..j]) + if IsFbxName(files[j]) then [Join(root, files[j])] else []
    ensures FbxPathsIn(root, files[..j + 1]) <= FbxPathsIn(root, files)
  {
    var f := files[..j + 1];
    assert f[..|f| - 1] == files[..j] && f[|f| - 1] == files[j];
    assert files == f + files[j + 1..];
    FbxPathsInAppend(root, f, files[j + 1..]);
  }
}
