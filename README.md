# Browzwear FBX import, modelled in Dafny

This project models the Blender add-on that imports Browzwear FBX exports and
normalises each one. `import_fbx_file` has the host's FBX importer decode a
file, then reduces what it created to a single mesh object:

- the imported objects are split into meshes and non-meshes;
- the meshes are joined into the first one;
- the non-meshes are deleted;
- the kept mesh is renamed after the file (`splitext(basename(path))[0]`);
- it is moved into a collection named after the file's folder
  (`basename(dirname(path))`), and that collection is created under the
  scene's root collection when missing.

The folder operator walks a directory tree. It calls `import_fbx_file` on
every file whose name ends in `.fbx`, in walk order.

The model has four modules:

- `Paths` (`paths.dfy`): POSIX `basename`, `dirname`, `splitext` and `join`
  as pure functions, the object name (`Stem`) and the collection name
  (`CollectionName`) derived from a path, and the `.fbx` suffix test.
- `Objects` (`objects.dfy`): scene objects (name, type, collection
  memberships) and the two list comprehensions that split an import result.
- `Scenes` (`scene.dfy`): the class `Scene`, whose fields `objects`,
  `collections`, `rootChildren` and `nextId` play the parts of
  `bpy.data.objects`, `bpy.data.collections`, `scene.collection.children`
  and object creation. Its constructor makes an empty scene. Each step of `import_fbx_file` is a method that
  updates those fields in place. `ImportFbxFile` runs them in order and
  returns `Success(id)` or the error that makes the Python function raise.
- `Folder` (`folder.dfy`): the walk as a list of `(root, files)` entries.
  `FbxPaths` is the list of paths the operator hands on, and `ImportFolder`
  is the nested loop that hands them on.

The FBX decoder is a foreign call, so what it makes of a file is an input:
`None` when the import operator raises, otherwise the objects it created, in
the order `bpy.context.selected_objects` lists them (the selection order).

Two behaviours of the code are modelled as written:

- A file with no mesh makes `mesh_objects[0]` (line 17) raise `IndexError`.
  The model returns `Failure(NoMeshContent)` at exactly that point. The
  decoder's objects stay in the scene, and no collection is created.
- `FBXImportFolderOperator.execute` (lines 99-104) has no `try`, so the
  first exception from `import_fbx_file` ends the whole walk. `ImportFolder`
  stops there with `Raised(error)`, and later files are not imported.

## Model

| member | source | states |
|---|---|---|
| Paths.Basename | Browzwear_FBX_import.py:23 | `os.path.basename`: the result has no separator, is a suffix of the path, and is all of it or follows a separator |
| Paths.Dirname | Browzwear_FBX_import.py:37 | `os.path.dirname`: a prefix of the path; only separators lie between it and the basename; it ends in a non-separator unless it is all separators, and in that case nothing else precedes the basename |
| Paths.SplitExt | Browzwear_FBX_import.py:23 | `os.path.splitext`: root and extension concatenate to the path; the extension is empty, or one dot followed by no other dot and no separator |
| Paths.Join | Browzwear_FBX_import.py:102 | `os.path.join`: the result ends with the second part and, when that part is not absolute, starts with the first |
| Paths.Stem | Browzwear_FBX_import.py:23 | the object name never contains `/` and is a prefix of the path's basename |
| Paths.CollectionName | Browzwear_FBX_import.py:37 | the collection name never contains `/` |
| Paths.ExtensionIff | Browzwear_FBX_import.py:23 | a separator-free name has an extension if and only if some non-dot character comes before some dot |
| Paths.BasenameOfJoin | Browzwear_FBX_import.py:102 | the basename of `join(root, f)` is `f` for a separator-free file name |
| Paths.DirnameOfJoin | Browzwear_FBX_import.py:37 | for a root not made only of separators, the directory of `join(root, f)` is `root` without its trailing separators (a root such as `/` is covered by `Paths.CollectionOfJoinAllSep`) |
| Paths.CollectionOfJoinAllSep | Browzwear_FBX_import.py:37 | a file directly under a root made only of separators (`/`) goes into the collection with the empty name, the basename of the stripped root |
| Paths.SplitExtOfFbxName | Browzwear_FBX_import.py:23 | `splitext` of a `.fbx` name drops exactly the `.fbx`, unless everything before it is dots, in which case the name has no extension |
| Paths.StemOfFbxFile | Browzwear_FBX_import.py:23 | a walked `x.fbx` becomes the object `x`; a name whose part before `.fbx` is only dots keeps its full name |
| Paths.IsFbxName | Browzwear_FBX_import.py:101 | `endswith('.fbx')`: with `Paths.FbxNameIff`, a name passes exactly when it is some stem followed by `.fbx` |
| Paths.FbxNameIff | Browzwear_FBX_import.py:101 | a name passes the filter if and only if it is some string followed by `.fbx` |
| Paths.MultiDotExample | Browzwear_FBX_import.py:23 | `shirt.v2.fbx` gives the object name `shirt.v2` |
| Paths.DotFileExample | Browzwear_FBX_import.py:23 | `.hidden` keeps its leading dot |
| Paths.CollectionExample | Browzwear_FBX_import.py:37 | `/assets/shirt_01/buttons.fbx` goes into the collection `shirt_01` |
| Paths.StemExample | Browzwear_FBX_import.py:23 | `/assets/shirt_01/buttons.fbx` gives the object name `buttons` |
| Paths.FbxSuffixExample | Browzwear_FBX_import.py:101 | the suffix test accepts `buttons.fbx` and rejects `buttons.FBX` |
| Objects.Filter | Browzwear_FBX_import.py:10-11 | a comprehension keeps exactly the elements that pass the test and never lengthens the list |
| Objects.FilterAppend | Browzwear_FBX_import.py:10-11 | a comprehension keeps input order: filtering a concatenation concatenates the filtered parts |
| Objects.MeshObjects | Browzwear_FBX_import.py:10 | the mesh list holds exactly the imported objects of type `MESH` and is no longer than the import |
| Objects.NonMeshObjects | Browzwear_FBX_import.py:11 | the other list holds exactly the imported objects not of type `MESH` and is no longer than the import |
| Objects.Partition | Browzwear_FBX_import.py:10-11 | together the two lists are a rearrangement of the import: every imported object is in one of them, as often as it was imported (which list is stated by `Objects.MeshObjects` and `Objects.NonMeshObjects`) |
| Objects.PartitionKeepsOrder | Browzwear_FBX_import.py:10-11 | both lists keep import order |
| Objects.PartitionDistinct | Browzwear_FBX_import.py:10-11 | both lists of a duplicate-free import are duplicate-free |
| Objects.FirstMesh | Browzwear_FBX_import.py:17 | `mesh_objects[0]` is the first mesh in import order |
| Scenes.Scene.PlaceImported | Browzwear_FBX_import.py:6-7 | the decoder's objects are added under fresh handles, and the selection lists them in the order the decoder gives |
| Scenes.Scene.JoinMeshes | Browzwear_FBX_import.py:20-22 | the join removes exactly the meshes after the first, and the active (first) mesh is kept unchanged |
| Scenes.Scene.RemoveObject | Browzwear_FBX_import.py:31 | removing an object deletes exactly that object, with its links |
| Scenes.Scene.RemoveObjects | Browzwear_FBX_import.py:30-31 | after the deletion loop, exactly the listed objects are gone and every other object is unchanged |
| Scenes.Scene.Rename | Browzwear_FBX_import.py:34 | the object gets the new name and nothing else changes |
| Scenes.Scene.GetOrCreateCollection | Browzwear_FBX_import.py:38-41 | an existing collection is reused with root children unchanged; a missing one is added and appended to the root's children; at most one collection is added |
| Scenes.Scene.Unlink | Browzwear_FBX_import.py:47 | the object leaves that one collection |
| Scenes.Scene.Link | Browzwear_FBX_import.py:48 | the object joins that one collection |
| Scenes.Scene.MoveToCollection | Browzwear_FBX_import.py:46-48 | whatever its memberships were, the object ends up in exactly the target collection, and no other object changes |
| Scenes.Scene.Prune | Browzwear_FBX_import.py:20-31 | after the join and the deletion loop, the other meshes and all non-meshes are gone, and the first mesh is kept unchanged |
| Scenes.Scene.RenameAndRelink | Browzwear_FBX_import.py:34-48 | the kept object is renamed and sits in exactly the named collection, which exists afterwards; at most one collection is added |
| Scenes.Scene.ImportFbxFile | Browzwear_FBX_import.py:4-50 | succeeds if and only if the decoder ran and made a mesh; on success the scene gains exactly one object, the first mesh in selection order, named after the file and in the folder's collection only, while every earlier object is untouched; a decoder failure changes nothing; with no mesh the decoded objects stay and no collection is created |
| Scenes.FirstImportedMesh | Browzwear_FBX_import.py:10-17 | there is a first mesh if and only if the decoder made a mesh, and it is the earliest mesh in selection order |
| Scenes.OnlyJoinedRemains | Browzwear_FBX_import.py:20-31 | after the join and the deletion, the only decoded object left is the first mesh |
| Folder.FbxPathsIn | Browzwear_FBX_import.py:100-102 | the paths handed on for one directory are never more than its files |
| Folder.FbxPaths | Browzwear_FBX_import.py:99-102 | the paths handed on for the walk are never more than the files it lists |
| Folder.FbxPathsInSource | Browzwear_FBX_import.py:100-102 | every path handed on for a directory joins it with one of its `.fbx` files |
| Folder.FbxPathsInHas | Browzwear_FBX_import.py:100-102 | every `.fbx` file of a directory has its joined path handed on |
| Folder.FbxPathsInAppend | Browzwear_FBX_import.py:100-104 | the paths handed on for a directory follow its listing order |
| Folder.FbxPathsAppend | Browzwear_FBX_import.py:99-104 | the paths handed on follow walk order |
| Folder.FbxPathsInMembers | Browzwear_FBX_import.py:100-102 | a path is handed on for a directory if and only if it joins the directory with one of its `.fbx` files |
| Folder.FbxPathsMembers | Browzwear_FBX_import.py:99-102 | a path is handed on for the walk if and only if it joins a walked directory with one of its `.fbx` files |
| Folder.FbxPathsInCount | Browzwear_FBX_import.py:100-104 | one call per `.fbx` file: as many paths as file names that pass the filter |
| Folder.OnlyFbxFilesPassed | Browzwear_FBX_import.py:101-102 | a listed file is handed on if and only if its name ends in `.fbx` |
| Folder.WalkedFileNaming | Browzwear_FBX_import.py:102 | for every walked directory, a walked `x.fbx` goes into the collection named after that directory (its basename once trailing separators are stripped), as the object `x` unless `x` is only dots |
| Folder.ImportFolder | Browzwear_FBX_import.py:94-106 | hands on the walk's `.fbx` paths in order, all of them unless one raises, and stops at the first raise with that file's error; each file handed on before that left one new object in the scene, a mesh named after the file and linked only into its folder's collection; when the walk finishes these are the only new objects; earlier objects are untouched; the collections afterwards are exactly the earlier ones plus the folder collection of every imported file, and the root's children are only appended to, by exactly the collections that did not exist before, in order of first use, each once |
| Folder.ImportFilesIn | Browzwear_FBX_import.py:100-104 | the same promises for the files of one directory: one new object per imported `.fbx` file, named after it and in its folder's collection, and exactly those files' missing collections created and appended under the root in order |
| Folder.ImportListed | Browzwear_FBX_import.py:101-104 | one listed name: a `.fbx` name is joined to its directory and imported, any other is skipped with nothing changed; a success adds exactly the file's object and looks up or creates its collection; a raise keeps every collection and earlier object, and leaves the scene's objects as they were when the decoder raised, or with the decoded objects added when the decoder made no mesh |
| Folder.ListedStep | Browzwear_FBX_import.py:101-104 | what one listed name adds to the walk so far: the handed-on list, the objects made, and the collections and root children grown, as `Folder.ImportFilesIn` states them |
| Folder.NewNamesMembers | Browzwear_FBX_import.py:38-41 | the collections appended under the root are exactly the names used that did not exist before, each once |
| Folder.GrownStep | Browzwear_FBX_import.py:38-41 | one more imported file adds its collection to the set, and appends it under the root only when it was missing |
| Folder.GrownAppend | Browzwear_FBX_import.py:99-104 | the collections grown by two runs of files in a row are those grown by the files of both runs |

## Left out

- The FBX decoder (`bpy.ops.import_scene.fbx`) is a foreign call. What it makes of each file is an input, and it is assumed to link new objects only into existing collections.
- Geometry merging in `join`, `parent_clear` and `origin_set` work on floating-point transforms. The join is modelled only as removing the non-first meshes.
- Selection and the active object are host UI state. The selected objects are taken to be the decoder's objects, in the order the decoder's list gives, and the active one is the first mesh in that order.
- The decoder is taken to be all-or-nothing: when it raises (`None`), it has added no objects, so a decoder failure leaves the scene unchanged.
- Scenes.Scene.Rename: does not model Blender's collision suffixing (`.001`) or its name-length truncation. The assignment is a plain field update, and the same holds for names given to new collections.
- An empty collection name (a file directly under `/`) is passed through as is. How Blender names such a collection is not modelled.
- `os.walk` is an input list of `(root, files)` pairs. `bpy.path.abspath` is a host path resolver and is not modelled.
- Folder.ImportFolder: on a raise it states what the earlier files left, not what the failing file's decoder left behind. Those objects sit under handles counted from `nextId` at the failing call, which the walk's contract does not track. `Scenes.Scene.ImportFbxFile` and `Folder.ImportListed` state them for one call.
- Folder.ImportFilesIn: on a raise it states what the earlier files of the directory left, not what the failing file's decoder left behind, for the same reason as `Folder.ImportFolder`. `Folder.ImportListed` states them for that file.
- The printed path is the `visited` output. The panel, `register`/`unregister` and the unused `non_mesh_object_names` list are not modelled.
- `FBXImportOperator.execute` only calls `import_fbx_file` on one resolved path, so `Scenes.Scene.ImportFbxFile` covers it.
- Windows path rules (`ntpath`) are not modelled. Paths follow POSIX `os.path`.
- Blender object handles are natural numbers. Deleted handles are never reused.
