/** The catalog's records and how they are built from a path (be/model.py). */
module Entities {
  import opened PyText
  import opened FileTree

  // ---------------------------------------------------------------- sizes

  /** The bytes a node occupies: a file's own size, or the sizes of every file in a
      directory's subtree added up. */
  function TreeSize(n: Node): nat
    decreases n, 1, 0
  {
    match n
    case File(size, _) => size
    case Dir(_, _) => SizeFrom(n, 0)
  }

  /** The sizes of the entries of `n` from the `i`-th on. */
  function SizeFrom(n: Node, i: nat): nat
    requires n.Dir? && i <= |n.entries|
    decreases n, 0, |n.entries| - i
  {
    if i == |n.entries| then 0 else TreeSize(n.entries[i].node) + SizeFrom(n, i + 1)
  }

  /** `get_dir_size`: a running total over the directory's entries, recursing into
      subdirectories. */
  method DirSize(n: Node) returns (size: nat)
    requires n.Dir?
    ensures size == TreeSize(n)
    decreases n
  {
    size := 0;
    var i := 0;
    while i < |n.entries|
      invariant 0 <= i <= |n.entries|
      invariant size + SizeFrom(n, i) == TreeSize(n)
    {
      var e := n.entries[i];
      if e.node.Dir? {
        var sub := DirSize(e.node);
        size := size + sub;
      } else {
        size := size + e.node.size;
      }
      i := i + 1;
    }
  }

  /** An empty directory has size 0. */
  lemma EmptyDirSize(mtime: int)
    ensures TreeSize(Dir([], mtime)) == 0
  {
  }

  /** A directory is at least as large as any of its entries. */
  lemma {:induction false} EntryWithinDir(n: Node, k: nat)
    requires n.Dir? && k < |n.entries|
    ensures TreeSize(n.entries[k].node) <= TreeSize(n)
  {
    SizeFromCovers(n, 0, k);
  }

  lemma {:induction false} SizeFromCovers(n: Node, i: nat, k: nat)
    requires n.Dir? && i <= k < |n.entries|
    ensures TreeSize(n.entries[k].node) <= SizeFrom(n, i)
    decreases k - i
  {
    if i < k {
      SizeFromCovers(n, i + 1, k);
    }
  }

  // ---------------------------------------------------------------- records

  /** `FileEntity`: times are seconds since the epoch. `entityUpdateTime` is the
      default the class computed when its module was loaded. */
  datatype FileEntity = FileEntity(
    id: int,
    size: int,
    name: string,
    path: string,
    updateTime: int,
    archived: bool,
    favorited: bool,
    lastViewedTime: Option<int>,
    lastViewedPosition: int,
    coverPosition: int,
    entityUpdateTime: int)

  /** `ComicEntity`: a file record and its page count. */
  datatype ComicEntity = ComicEntity(file: FileEntity, page: int)

  /** `VideoEntity`: a file record and its length in whole seconds. */
  datatype VideoEntity = VideoEntity(file: FileEntity, durationInSecond: int)

  /** A record as the constructor makes it when only the required fields are given:
      not archived, not a favourite, never viewed, cover from page 0. */
  function NewFileEntity(id: int, size: int, name: string, path: string, updateTime: int, loadedAt: int): (r: FileEntity)
    ensures !r.archived && !r.favorited
    ensures r.lastViewedTime == None && r.lastViewedPosition == 0 && r.coverPosition == 0
    ensures r.entityUpdateTime == loadedAt
    ensures r.id == id && r.size == size && r.name == name && r.path == path && r.updateTime == updateTime
  {
    FileEntity(id, size, name, path, updateTime, false, false, None, 0, 0, loadedAt)
  }

  /** `FileEntity.from_path`: the record of whatever `path` names in `root`, with id 0
      and its size counted as `TreeSize` (a file's size, or `get_dir_size` of a
      directory); `stat` raises for a missing path. `loadedAt` is the time the
      module was loaded. */
  function FileFromPath(path: string, root: Node, loadedAt: int): (r: Outcome<FileEntity>)
    ensures r.Err? <==> Resolve(root, path).None?
    ensures r.Err? ==> r.exc.kind == FileNotFoundError
    ensures r.Ok? ==> r.value.id == 0 && r.value.path == path && r.value.name == PathName(path)
    ensures r.Ok? ==> r.value.size == TreeSize(Resolve(root, path).value)
    ensures r.Ok? ==> r.value.updateTime == Resolve(root, path).value.mtime
    ensures r.Ok? ==> r.value == NewFileEntity(0, r.value.size, r.value.name, path, r.value.updateTime, loadedAt)
  {
    match Resolve(root, path)
    case None => Err(Exc(FileNotFoundError, path))
    case Some(n) => Ok(NewFileEntity(0, TreeSize(n), PathName(path), path, n.mtime, loadedAt))
  }

  /** `ComicEntity.from_path`: every field of the file record, the id given, page 0. */
  function ComicFromPath(path: string, id: int, root: Node, loadedAt: int): (r: Outcome<ComicEntity>)
    ensures r.Err? <==> FileFromPath(path, root, loadedAt).Err?
    ensures r.Ok? ==> r.value.file == FileFromPath(path, root, loadedAt).value.(id := id)
    ensures r.Ok? ==> r.value.page == 0
  {
    match FileFromPath(path, root, loadedAt)
    case Err(e) => Err(e)
    case Ok(f) => Ok(ComicEntity(f.(id := id), 0))
  }

  /** `VideoEntity.from_path`: every field of the file record, the id given, no length. */
  function VideoFromPath(path: string, id: int, root: Node, loadedAt: int): (r: Outcome<VideoEntity>)
    ensures r.Err? <==> FileFromPath(path, root, loadedAt).Err?
    ensures r.Ok? ==> r.value.file == FileFromPath(path, root, loadedAt).value.(id := id)
    ensures r.Ok? ==> r.value.durationInSecond == 0
  {
    match FileFromPath(path, root, loadedAt)
    case Err(e) => Err(e)
    case Ok(f) => Ok(VideoEntity(f.(id := id), 0))
  }

  /** `ImageEntity.from_path` builds a video record, length 0, not an image record. */
  function ImageFromPath(path: string, id: int, root: Node, loadedAt: int): (r: Outcome<VideoEntity>)
    ensures r == VideoFromPath(path, id, root, loadedAt)
    ensures r.Ok? ==> r.value.file.id == id && r.value.durationInSecond == 0
  {
    match FileFromPath(path, root, loadedAt)
    case Err(e) => Err(e)
    case Ok(f) => Ok(VideoEntity(f.(id := id), 0))
  }

  /** No two stored comics share an id (the table's primary key). */
  predicate UniqueIds(table: seq<ComicEntity>)
  {
    forall i, j :: 0 <= i < j < |table| ==> table[i].file.id != table[j].file.id
  }
}
