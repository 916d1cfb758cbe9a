/** Discovering comics on disk and turning new ones into records (be/loader.py). */
module Loader {
  import opened PyText
  import opened Lists
  import opened FileTree
  import opened Entities
  import opened ComicFile

  // ---------------------------------------------------------------- scan

  /** Some file name has an image extension, compared as it is. */
  predicate HasImage(files: seq<string>)
  {
    exists k :: 0 <= k < |files| && Ext(files[k]) in ComicFile.AllowImgs
  }

  /** What one walk triple adds when `""` is among the extensions: the directory itself
      when it has no subdirectory and holds an image. */
  function LeafEmit(exts: seq<string>, s: Step): seq<string>
  {
    if "" in exts && s.dirs == [] && HasImage(s.files) then [s.root] else []
  }

  /** The path of one listed file when its extension is one of `exts`. */
  function Hit(exts: seq<string>, root: string, f: string): seq<string>
  {
    if Ext(f) in exts then [Join(root, f)] else []
  }

  /** The paths of the files whose extension is one of `exts`, in listing order. */
  function FileHits(exts: seq<string>, root: string, files: seq<string>): seq<string>
  {
    ConcatMap(files, (f: string) => Hit(exts, root, f))
  }

  lemma FileHitsExactly(exts: seq<string>, root: string, files: seq<string>, x: string)
    ensures x in FileHits(exts, root, files) <==>
      exists k :: 0 <= k < |files| && Ext(files[k]) in exts && x == Join(root, files[k])
  {
    ConcatMapExactly(files, (f: string) => Hit(exts, root, f), x);
  }

  /** What one walk triple emits. */
  function StepEmits(exts: seq<string>, s: Step): seq<string>
  {
    LeafEmit(exts, s) + FileHits(exts, s.root, s.files)
  }

  /** `StepEmits` for the extensions `exts`, as one function value. */
  function EmitsOf(exts: seq<string>): Step -> seq<string>
  {
    (s: Step) => StepEmits(exts, s)
  }

  /** What a sequence of walk triples emits, triple by triple. */
  function StepsEmits(exts: seq<string>, steps: seq<Step>): seq<string>
  {
    ConcatMap(steps, EmitsOf(exts))
  }

  /** Everything the walks of `pathes` emit, in order, before duplicates are removed;
      `walk` is `os.walk`, on a snapshot the `Walk` of the node a path resolves to. */
  function Emitted(exts: seq<string>, pathes: seq<string>, walk: string -> seq<Step>): seq<string>
  {
    StepsEmits(exts, ConcatMap(pathes, walk))
  }

  /** The body of the walk loop for one triple. */
  method EmitStep(exts: seq<string>, s: Step) returns (out: seq<string>)
    ensures out == StepEmits(exts, s)
  {
    var hits: seq<string> := [];
    for k := 0 to |s.files|
      invariant hits == FileHits(exts, s.root, s.files[..k])
    {
      ConcatMapSnoc(s.files[..k], s.files[k], (f: string) => Hit(exts, s.root, f));
      assert s.files[..k + 1] == s.files[..k] + [s.files[k]];
      if Ext(s.files[k]) in exts {
        hits := hits + [Join(s.root, s.files[k])];
      }
    }
    assert s.files[..|s.files|] == s.files;
    out := LeafEmit(exts, s) + hits;
  }

  /** The walk loop of `scan` for one path. */
  method EmitWalk(exts: seq<string>, steps: seq<Step>) returns (out: seq<string>)
    ensures out == StepsEmits(exts, steps)
  {
    out := [];
    for j := 0 to |steps|
      invariant out == StepsEmits(exts, steps[..j])
    {
      var more := EmitStep(exts, steps[j]);
      ConcatMapSnoc(steps[..j], steps[j], EmitsOf(exts));
      assert steps[..j + 1] == steps[..j] + [steps[j]];
      out := out + more;
    }
    assert steps[..|steps|] == steps;
  }

  /** `scan`: walks every path, collecting leaf image directories (when `""` is among
      the extensions) and files with a listed extension, then removes duplicates. */
  method Scan(exts: seq<string>, pathes: seq<string>, walk: string -> seq<Step>) returns (r: seq<string>)
    ensures r == Dedup(Emitted(exts, pathes, walk))
  {
    var ret: seq<string> := [];
    for i := 0 to |pathes|
      invariant ret == StepsEmits(exts, ConcatMap(pathes[..i], walk))
    {
      var out := EmitWalk(exts, walk(pathes[i]));
      ConcatMapAppend(ConcatMap(pathes[..i], walk), walk(pathes[i]), EmitsOf(exts));
      ConcatMapSnoc(pathes[..i], pathes[i], walk);
      assert pathes[..i + 1] == pathes[..i] + [pathes[i]];
      ret := ret + out;
    }
    assert pathes[..|pathes|] == pathes;
    r := Dedup(ret);
  }

  /** The scan lists no path twice. */
  lemma ScanNoDuplicates(exts: seq<string>, pathes: seq<string>, walk: string -> seq<Step>)
    ensures NoDup(Dedup(Emitted(exts, pathes, walk)))
  {
  }

  /** What one walk triple contributes: its own directory when `""` is listed, it has
      no subdirectory and one of its files has an image extension; and each file whose
      extension is listed (a file without extension when `""` is listed). */
  lemma StepEmitsExactly(exts: seq<string>, s: Step, x: string)
    ensures x in StepEmits(exts, s) <==>
      ("" in exts && s.dirs == [] && HasImage(s.files) && x == s.root)
      || (exists k :: 0 <= k < |s.files| && Ext(s.files[k]) in exts && x == Join(s.root, s.files[k]))
  {
    FileHitsExactly(exts, s.root, s.files, x);
  }

  /** A path is in the scan exactly when some walk triple of some scanned path
      contributes it. */
  lemma ScanExactly(exts: seq<string>, pathes: seq<string>, walk: string -> seq<Step>, x: string)
    ensures x in Dedup(Emitted(exts, pathes, walk)) <==>
      exists i, s :: 0 <= i < |pathes| && s in walk(pathes[i]) && x in StepEmits(exts, s)
  {
    var steps := ConcatMap(pathes, walk);
    var e := Emitted(exts, pathes, walk);
    assert x in Dedup(e) <==> x in e by {
      var d := Dedup(e);
      if x in d {
        var k :| 0 <= k < |d| && d[k] == x;
      }
      if x in e {
        var k :| 0 <= k < |e| && e[k] == x;
      }
    }
    assert x in e <==> exists j :: 0 <= j < |steps| && x in StepEmits(exts, steps[j]) by {
      ConcatMapExactly(steps, EmitsOf(exts), x);
    }
    ScanSteps(exts, pathes, walk, x);
  }

  /** Some step of the walks emits `x` exactly when some step of some path's walk does. */
  lemma ScanSteps(exts: seq<string>, pathes: seq<string>, walk: string -> seq<Step>, x: string)
    ensures (exists j :: 0 <= j < |ConcatMap(pathes, walk)| && x in StepEmits(exts, ConcatMap(pathes, walk)[j])) <==>
      exists i, s :: 0 <= i < |pathes| && s in walk(pathes[i]) && x in StepEmits(exts, s)
  {
    var steps := ConcatMap(pathes, walk);
    if exists j :: 0 <= j < |steps| && x in StepEmits(exts, steps[j]) {
      var j :| 0 <= j < |steps| && x in StepEmits(exts, steps[j]);
      ConcatMapExactly(pathes, walk, steps[j]);
    }
    if exists i, s :: 0 <= i < |pathes| && s in walk(pathes[i]) && x in StepEmits(exts, s) {
      var i, s :| 0 <= i < |pathes| && s in walk(pathes[i]) && x in StepEmits(exts, s);
      ConcatMapExactly(pathes, walk, s);
      var k :| 0 <= k < |steps| && steps[k] == s;
    }
  }

  /** `os.walk` on the snapshot `root`: the walk of the node a path names (nothing for
      a file), and nothing for a path that does not exist. */
  function TreeWalk(root: Node): string -> seq<Step>
  {
    (p: string) => match Resolve(root, p) case None => [] case Some(n) => Walk(p, n)
  }

  /** What the directory that `path` reaches below `top` contributes to the scan;
      nothing when `path` reaches no directory. */
  function ReachedEmits(exts: seq<string>, top: string, n: Node, path: seq<nat>): seq<string>
  {
    match Descend(top, n, path)
    case None => []
    case Some((p, d)) => if d.Dir? then StepEmits(exts, StepOf(p, d)) else []
  }

  /** On a snapshot, a path is in the scan exactly when it comes from some directory
      lying at or below an existing scanned path: every such directory is visited and
      nothing else is. */
  lemma ScanTree(exts: seq<string>, pathes: seq<string>, root: Node, x: string)
    ensures x in Dedup(Emitted(exts, pathes, TreeWalk(root))) <==>
      exists i, path :: 0 <= i < |pathes| && Resolve(root, pathes[i]).Some? &&
        x in ReachedEmits(exts, pathes[i], Resolve(root, pathes[i]).value, path)
  {
    var walk := TreeWalk(root);
    ScanExactly(exts, pathes, walk, x);
    if exists i, s :: 0 <= i < |pathes| && s in walk(pathes[i]) && x in StepEmits(exts, s) {
      var i, s :| 0 <= i < |pathes| && s in walk(pathes[i]) && x in StepEmits(exts, s);
      var path := WalkStepReached(exts, root, pathes[i], s, x);
    }
    if exists i, path :: 0 <= i < |pathes| && Resolve(root, pathes[i]).Some? &&
        x in ReachedEmits(exts, pathes[i], Resolve(root, pathes[i]).value, path)
    {
      var i, path :| 0 <= i < |pathes| && Resolve(root, pathes[i]).Some? &&
        x in ReachedEmits(exts, pathes[i], Resolve(root, pathes[i]).value, path);
      var s := ReachedWalkStep(exts, root, pathes[i], path, x);
    }
  }

  /** A walk triple of an existing path belongs to a directory at or below it. */
  lemma WalkStepReached(exts: seq<string>, root: Node, p: string, s: Step, x: string) returns (path: seq<nat>)
    requires s in TreeWalk(root)(p) && x in StepEmits(exts, s)
    ensures Resolve(root, p).Some? && x in ReachedEmits(exts, p, Resolve(root, p).value, path)
  {
    var n := Resolve(root, p).value;
    assert s in Walk(p, n);
    WalkStepsAreDirs(p, n, s);
    path :| StepAt(p, n, path, s);
  }

  /** A directory at or below an existing path is one of its walk triples. */
  lemma ReachedWalkStep(exts: seq<string>, root: Node, p: string, path: seq<nat>, x: string) returns (s: Step)
    requires Resolve(root, p).Some? && x in ReachedEmits(exts, p, Resolve(root, p).value, path)
    ensures s in TreeWalk(root)(p) && x in StepEmits(exts, s)
  {
    var n := Resolve(root, p).value;
    var d := Descend(p, n, path).value;
    WalkReachesEachDir(p, n, path);
    s := StepOf(d.0, d.1);
  }

  // ---------------------------------------------------------------- covers

  /** The extensions `ComicLoader` scans for: archives, and leaf image directories. */
  const ComicExts: seq<string> := [".zip", ".rar", ""]

  /** The text by which an encrypted zip member is recognised. */
  const EncryptedPhrase := "password required for extraction"

  /** `f"{c.id}_0.jpg"`: the cover file of a comic. */
  function CoverName(id: int): string
  {
    IntToString(id) + "_0.jpg"
  }

  /** Where the cover of comic `id` is written, under the cover directory. */
  function CoverPath(coverDir: string, id: int): string
  {
    Join(coverDir, CoverName(id))
  }

  /** The cover name starts with the id and ends with `_0.jpg`. */
  lemma CoverNameShape(id: int)
    ensures CoverName(id)[..|IntToString(id)|] == IntToString(id)
    ensures |CoverName(id)| == |IntToString(id)| + 6
    ensures CoverName(id)[|CoverName(id)| - 6..] == "_0.jpg"
  {
  }

  /** `gen_comic_cover` tries to make a cover unless one exists and `overwrite` is off. */
  predicate CoverAttempted(overwrite: bool, coverExists: bool)
  {
    overwrite || !coverExists
  }

  /** The exception, if any, that escapes the read-and-save steps: the one `read` raised,
      or else, after a page was read, the one making the thumbnail raised. */
  function CoverError(read: PageRead, save: Option<Exc>): Option<Exc>
  {
    match read
    case Raised(e) => Some(e)
    case NoPage => None
    case Page(_) => save
  }

  /** The two `except` clauses: a `RuntimeError` is re-raised unless its text mentions
      the encryption phrase; anything else is reported and gives `False`. */
  function CoverHandler(e: Exc): Outcome<bool>
  {
    if e.kind == RuntimeError && !Contains(e.msg, EncryptedPhrase) then Err(e) else Ok(false)
  }

  /** `gen_comic_cover` with the reader given: `read` is what `cf.read(page)` gives and
      `save` what decoding, shrinking and saving the image as JPEG raises (`None` when it
      succeeds). `Err` is an exception leaving the function. */
  function GenComicCover(overwrite: bool, coverExists: bool, read: PageRead, save: Option<Exc>): Outcome<bool>
  {
    if !CoverAttempted(overwrite, coverExists) then Ok(false)
    else match read
      case NoPage => Ok(false)
      case Raised(e) => CoverHandler(e)
      case Page(_) => if save.None? then Ok(true) else CoverHandler(save.value)
  }

  /** An existing cover is kept, whatever reading or saving would have done. */
  lemma CoverKept(coverExists: bool, read: PageRead, save: Option<Exc>, read': PageRead, save': Option<Exc>)
    requires coverExists
    ensures GenComicCover(false, coverExists, read, save) == Ok(false)
    ensures GenComicCover(false, coverExists, read, save) == GenComicCover(false, coverExists, read', save')
  {
  }

  /** A cover is reported made exactly when one was attempted, a page was read and the
      image was saved. */
  lemma CoverMadeExactly(overwrite: bool, coverExists: bool, read: PageRead, save: Option<Exc>)
    ensures GenComicCover(overwrite, coverExists, read, save) == Ok(true) <==>
      CoverAttempted(overwrite, coverExists) && read.Page? && save.None?
  {
  }

  /** The function raises exactly when an attempt hit a `RuntimeError` whose text lacks
      the encryption phrase, and then it raises that very exception; otherwise it
      returns `True` or `False`. */
  lemma CoverRaisesExactly(overwrite: bool, coverExists: bool, read: PageRead, save: Option<Exc>)
    ensures GenComicCover(overwrite, coverExists, read, save).Err? <==>
      CoverAttempted(overwrite, coverExists) && CoverError(read, save).Some? &&
      CoverError(read, save).value.kind == RuntimeError && !Contains(CoverError(read, save).value.msg, EncryptedPhrase)
    ensures GenComicCover(overwrite, coverExists, read, save).Err? ==>
      GenComicCover(overwrite, coverExists, read, save).exc == CoverError(read, save).value
  {
  }

  /** The message zipfile gives for an encrypted member mentions the phrase, so an
      encrypted zip comic gets no cover and raises nothing. */
  lemma EncryptedZipSkipped(name: string, overwrite: bool, coverExists: bool)
    ensures GenComicCover(overwrite, coverExists, Raised(Exc(RuntimeError, EncryptedMessage(name))), None) == Ok(false)
  {
    var head := "File '" + name + "' is encrypted, ";
    var msg := EncryptedMessage(name);
    assert msg[|head|..] == EncryptedPhrase;
    assert OccursAt(msg, EncryptedPhrase, |head|);
  }

  // ---------------------------------------------------------------- ids

  /** The largest id among the stored comics, 0 when there is none. */
  function MaxId(table: seq<ComicEntity>): int
  {
    if table == [] then 0
    else
      var id := table[|table| - 1].file.id;
      if |table| == 1 then id
      else
        var m := MaxId(table[..|table| - 1]);
        if id > m then id else m
  }

  lemma {:induction false} MaxIdIsMax(table: seq<ComicEntity>)
    ensures forall i :: 0 <= i < |table| ==> table[i].file.id <= MaxId(table)
    ensures table != [] ==> exists i :: 0 <= i < |table| && table[i].file.id == MaxId(table)
  {
    if |table| > 1 {
      var init := table[..|table| - 1];
      MaxIdIsMax(init);
      forall i | 0 <= i < |table| - 1
        ensures table[i].file.id <= MaxId(table)
      {
        assert table[i] == init[i];
      }
      var k :| 0 <= k < |init| && init[k].file.id == MaxId(init);
      assert table[k] == init[k];
    } else if |table| == 1 {
      assert table[0].file.id == MaxId(table);
    }
  }

  /** The ids handed out after seeding the counter with `seed`: `seed + 1`, `seed + 2`, … */
  ghost predicate IdsFrom(seed: int, issued: seq<int>)
  {
    forall k :: 0 <= k < |issued| ==> issued[k] == seed + k + 1
  }

  /** Ids handed out from one seed strictly increase and all exceed the seed. */
  lemma IdsIncrease(seed: int, issued: seq<int>)
    requires IdsFrom(seed, issued)
    ensures forall i, j :: 0 <= i < j < |issued| ==> seed < issued[i] < issued[j]
  {
  }

  // ---------------------------------------------------------------- conversion

  /** What the `with comicfile.create(path) as cf` block sees: the reader could not be
      made or opened (raising `exc`), or it opened with `pages` pages and reading page 0
      gave `first`. */
  datatype ComicOpen = OpenFailed(exc: Exc) | Opened(pages: int, first: PageRead)

  /** The outcome of `_to_entity` for one path: a record, `None` after logging `message`,
      or an exception leaving `_to_entity`. */
  datatype Converted = Made(entity: ComicEntity) | Skipped(message: string) | Failed(exc: Exc)

  /** `_to_entity(path)` once `_get_id()` gave `id`. `from_path` raising propagates; any
      exception inside the `with` block (opening, or a cover error re-raised) is logged
      as `"<path>: <message>"` and gives `None`. The cover is always regenerated, so
      whether it exists does not matter. */
  function ToEntity(path: string, id: int, root: Node, loadedAt: int, open: ComicOpen, save: Option<Exc>): Converted
  {
    match ComicFromPath(path, id, root, loadedAt)
    case Err(e) => Failed(e)
    case Ok(c) =>
      match open
      case OpenFailed(e) => Skipped(c.file.path + ": " + e.msg)
      case Opened(pages, first) =>
        match GenComicCover(true, true, first, save)
        case Err(e) => Skipped(c.file.path + ": " + e.msg)
        case Ok(_) => Made(c.(page := pages))
  }

  /** A record made from `path` carries that path, the id taken for it and the page
      count the reader reported; every other field is `ComicEntity.from_path`'s. */
  lemma ToEntityMade(path: string, id: int, root: Node, loadedAt: int, open: ComicOpen, save: Option<Exc>)
    ensures ToEntity(path, id, root, loadedAt, open, save).Made? <==>
      Resolve(root, path).Some? && open.Opened? && GenComicCover(true, true, open.first, save).Ok?
    ensures ToEntity(path, id, root, loadedAt, open, save).Made? ==>
      var e := ToEntity(path, id, root, loadedAt, open, save).entity;
      e == ComicFromPath(path, id, root, loadedAt).value.(page := open.pages) &&
      e.file.id == id && e.file.path == path
  {
  }

  /** `_to_entity` raises exactly when the path is missing; every other failure is
      caught and skips the comic. */
  lemma ToEntityFailed(path: string, id: int, root: Node, loadedAt: int, open: ComicOpen, save: Option<Exc>)
    ensures ToEntity(path, id, root, loadedAt, open, save).Failed? <==> Resolve(root, path).None?
  {
    var r := ToEntity(path, id, root, loadedAt, open, save);
    match ComicFromPath(path, id, root, loadedAt)
    case Err(e) => assert r == Failed(e);
    case Ok(c) =>
      match open
      case OpenFailed(e) => assert r == Skipped(c.file.path + ": " + e.msg);
      case Opened(pages, first) =>
        match GenComicCover(true, true, first, save)
        case Err(e) => assert r == Skipped(c.file.path + ": " + e.msg);
        case Ok(_) => assert r == Made(c.(page := pages));
  }

  /** What entering `with comicfile.create(path) as cf` gives once `create` has chosen a
      reader: `None` has no `__enter__`, so the block raises before reading anything;
      otherwise what the reader gives, `entered`. */
  function EnterWith(reader: Option<ComicKind>, entered: ComicOpen): ComicOpen
  {
    if reader.None? then OpenFailed(NoContextManager) else entered
  }

  /** The `TypeError` raised by `with None`. */
  const NoContextManager := Exc(TypeError, "'NoneType' object does not support the context manager protocol")

  /** An existing regular file the scan can list while `create` has no reader for it,
      such as one without extension (listed because `""` is among the scan's extensions):
      entering the `with` block fails and the comic is skipped with that message, never
      made and never raised. */
  lemma NoReaderSkipped(path: string, id: int, root: Node, loadedAt: int, entered: ComicOpen, save: Option<Exc>)
    requires Resolve(root, path).Some? && Resolve(root, path).value.File?
    requires Lower(Suffix(path)) != ".zip" && Lower(Suffix(path)) != ".rar"
    ensures Create(path, RegularFile) == None
    ensures EnterWith(Create(path, RegularFile), entered) == OpenFailed(NoContextManager)
    ensures ToEntity(path, id, root, loadedAt, EnterWith(Create(path, RegularFile), entered), save) ==
      Skipped(path + ": " + NoContextManager.msg)
  {
    CreateDispatch(path, RegularFile);
    var c := ComicFromPath(path, id, root, loadedAt);
    assert c.Ok? && c.value.file.path == path;
  }

  /** The reader steps of the `with` block for an archive comic: `open` (building the
      page list), `page`, `read(0)` for the cover, and `close` on the way out. `file` is
      the archive on disk, `None` when the library cannot open it. An `open` that
      raises while ordering the pages skips the comic like any other failure. */
  method OpenArchive(path: string, kind: ArchiveKind, file: Option<Archive>) returns (open: ComicOpen)
    ensures file.None? ==> open == OpenFailed(Exc(BadArchive, path))
    ensures file.Some? && OrderError(file.value.names).Some? ==>
      open == OpenFailed(OrderError(file.value.names).value)
    ensures file.Some? && OrderError(file.value.names).None? ==>
      open.Opened? && open.pages == |PageOrder(file.value.names)|
    ensures file.Some? && OrderError(file.value.names).None? && PageOrder(file.value.names) == [] ==>
      open == Opened(0, NoPage)
    ensures file.Some? && OrderError(file.value.names).None? && PageOrder(file.value.names) != [] ==>
      open.first == ReadMember(kind, file.value, false, PageOrder(file.value.names)[0])
  {
    var reader := new ArchiveReader(path, kind);
    var err := reader.Open(file);
    if err.Some? {
      return OpenFailed(err.value);
    }
    var first := reader.Read(0);
    open := Opened(reader.page.value, first);
    var _ := reader.Close();
  }

  // ---------------------------------------------------------------- work and load

  /** Some stored comic has this path. */
  predicate Recorded(table: seq<ComicEntity>, path: string)
  {
    exists i :: 0 <= i < |table| && table[i].file.path == path
  }

  /** `list(set(scanned) - set(recorded))`, in order of first occurrence. */
  function NewPaths(scanned: seq<string>, table: seq<ComicEntity>): seq<string>
  {
    Dedup(Filter(scanned, (p: string) => !Recorded(table, p)))
  }

  /** The new paths are exactly the scanned paths not yet recorded, each once; recorded
      paths the scan did not find play no part. */
  lemma NewPathsExactly(scanned: seq<string>, table: seq<ComicEntity>, p: string)
    ensures p in NewPaths(scanned, table) <==> p in scanned && !Recorded(table, p)
    ensures NoDup(NewPaths(scanned, table))
  {
    var kept := Filter(scanned, (q: string) => !Recorded(table, q));
    if p in scanned && !Recorded(table, p) {
      var k :| 0 <= k < |scanned| && scanned[k] == p;
    }
    if p in kept {
      var k :| 0 <= k < |kept| && kept[k] == p;
    }
    if p in NewPaths(scanned, table) {
      var k :| 0 <= k < |NewPaths(scanned, table)| && NewPaths(scanned, table)[k] == p;
    }
  }

  /** A conversion keeps the id it is given: what `ToEntity` does, once the disk, the
      readers and the image library are fixed. */
  ghost predicate KeepsIds(convert: (string, int) -> Converted)
  {
    forall p, id :: convert(p, id).Made? ==> convert(p, id).entity.file.id == id
  }

  /** `_to_entity` on a fixed disk, with `opens` and `saves` giving per path what the
      reader and the image library do. */
  function Converter(root: Node, loadedAt: int, opens: string -> ComicOpen, saves: string -> Option<Exc>): (string, int) -> Converted
  {
    (p: string, id: int) => ToEntity(p, id, root, loadedAt, opens(p), saves(p))
  }

  lemma ConverterKeepsIds(root: Node, loadedAt: int, opens: string -> ComicOpen, saves: string -> Option<Exc>)
    ensures KeepsIds(Converter(root, loadedAt, opens, saves))
  {
    forall p, id | Converter(root, loadedAt, opens, saves)(p, id).Made?
      ensures Converter(root, loadedAt, opens, saves)(p, id).entity.file.id == id
    {
      ToEntityMade(p, id, root, loadedAt, opens(p), saves(p));
    }
  }

  /** `_to_entity` over the new paths one after the other, the counter starting at
      `seed`: the path at position `k` gets id `seed + k + 1`. */
  function ConvertAll(paths: seq<string>, seed: int, convert: (string, int) -> Converted): seq<Converted>
  {
    if paths == [] then []
    else ConvertAll(paths[..|paths| - 1], seed, convert) + [convert(paths[|paths| - 1], seed + |paths|)]
  }

  /** The record a result contributes, if any. */
  function MadePiece(c: Converted): seq<ComicEntity>
  {
    if c.Made? then [c.entity] else []
  }

  /** The message a result contributes to the log, if any. */
  function LoggedPiece(c: Converted): seq<string>
  {
    if c.Skipped? then [c.message] else []
  }

  /** Converting one more path appends its result, made with the next id. */
  lemma ConvertAllStep(paths: seq<string>, i: nat, seed: int, convert: (string, int) -> Converted)
    requires i < |paths|
    ensures ConvertAll(paths[..i + 1], seed, convert) == ConvertAll(paths[..i], seed, convert) + [convert(paths[i], seed + i + 1)]
  {
    assert paths[..i + 1][..i] == paths[..i];
  }

  /** Logging one more result appends its message, if any. */
  lemma LogStep(before: seq<string>, cs: seq<Converted>, c: Converted)
    ensures before + LoggedOf(cs + [c]) == before + LoggedOf(cs) + LoggedPiece(c)
  {
    ConcatMapSnoc(cs, c, LoggedPiece);
  }

  /** The records among the results, in order (`[e for e in entities if e is not None]`). */
  function MadeOf(cs: seq<Converted>): seq<ComicEntity>
  {
    ConcatMap(cs, MadePiece)
  }

  /** The messages logged while converting, in order. */
  function LoggedOf(cs: seq<Converted>): seq<string>
  {
    ConcatMap(cs, LoggedPiece)
  }

  /** The exception `ThreadPool.map` re-raises: that of the first conversion that raised. */
  function FirstFailure(cs: seq<Converted>): Option<Exc>
  {
    if cs == [] then None
    else if cs[0].Failed? then Some(cs[0].exc)
    else FirstFailure(cs[1..])
  }

  lemma {:induction false} FirstFailureExactly(cs: seq<Converted>)
    ensures FirstFailure(cs).None? <==> forall k :: 0 <= k < |cs| ==> !cs[k].Failed?
    ensures FirstFailure(cs).Some? ==> exists k :: 0 <= k < |cs| && cs[k] == Failed(FirstFailure(cs).value)
  {
    if cs != [] {
      FirstFailureExactly(cs[1..]);
      if FirstFailure(cs[1..]).Some? && !cs[0].Failed? {
        var k :| 0 <= k < |cs[1..]| && cs[1..][k] == Failed(FirstFailure(cs[1..]).value);
        assert cs[k + 1] == cs[1..][k];
      }
      if !cs[0].Failed? {
        forall k | 1 <= k < |cs|
          ensures cs[k] == cs[1..][k - 1]
        {
        }
      }
    }
  }

  /** The records converted from `paths` carry ids in `(seed, seed + |paths|]`, in
      strictly increasing order. */
  lemma {:induction false} MadeIdsFresh(paths: seq<string>, seed: int, convert: (string, int) -> Converted)
    requires KeepsIds(convert)
    ensures forall i :: 0 <= i < |MadeOf(ConvertAll(paths, seed, convert))| ==>
      seed < MadeOf(ConvertAll(paths, seed, convert))[i].file.id <= seed + |paths|
    ensures forall i, j :: 0 <= i < j < |MadeOf(ConvertAll(paths, seed, convert))| ==>
      MadeOf(ConvertAll(paths, seed, convert))[i].file.id < MadeOf(ConvertAll(paths, seed, convert))[j].file.id
  {
    if paths != [] {
      var init := paths[..|paths| - 1];
      var c := convert(paths[|paths| - 1], seed + |paths|);
      var before := ConvertAll(init, seed, convert);
      MadeIdsFresh(init, seed, convert);
      assert ConvertAll(paths, seed, convert) == before + [c];
      ConcatMapSnoc(before, c, MadePiece);
      var m0 := MadeOf(before);
      var m := MadeOf(before + [c]);
      assert m == m0 + (if c.Made? then [c.entity] else []);
      assert c.Made? ==> c.entity.file.id == seed + |paths|;
      assert forall i :: 0 <= i < |m0| ==> m[i] == m0[i];
    }
  }

  /** Records whose ids lie above every stored id and increase strictly keep the ids
      unique when appended. */
  lemma AppendFresh(table: seq<ComicEntity>, news: seq<ComicEntity>, start: int, top: int)
    requires start <= top
    requires UniqueIds(table) && forall i :: 0 <= i < |table| ==> table[i].file.id <= start
    requires forall i :: 0 <= i < |news| ==> start < news[i].file.id <= top
    requires forall i, j :: 0 <= i < j < |news| ==> news[i].file.id < news[j].file.id
    ensures UniqueIds(table + news)
    ensures forall i :: 0 <= i < |table + news| ==> (table + news)[i].file.id <= top
  {
  }

  /** What `work` did: nothing scanned, nothing new, the records committed, or an
      exception raised before committing. */
  datatype WorkResult = NoFiles | NothingNew | Committed(count: nat) | Aborted(exc: Exc)

  /** `ComicLoader`: the id counter, the comic table of the store and the shared list of
      error messages. */
  class ComicLoader {
    /** `_starting_id`: the last id handed out. */
    var startingId: int
    var table: seq<ComicEntity>
    /** `global_data.err_message`. */
    var errMessages: seq<string>
    /** The counter's initial value and the ids handed out since. */
    ghost const seed: int
    ghost var issued: seq<int>

    /** Ids are handed out one by one from the seed, and every stored id is one already
        handed out or seen, so the next id is incoming. */
    ghost predicate Valid()
      reads this`startingId, this`issued, this`table
    {
      && IdsFrom(seed, issued)
      && startingId == seed + |issued|
      && UniqueIds(table)
      && forall i :: 0 <= i < |table| ==> table[i].file.id <= startingId
    }

    /** `ComicLoader.__init__`: the counter starts at the largest stored id, 0 when the
        table is empty. */
    constructor (recorded: seq<ComicEntity>, errMessages: seq<string>)
      requires UniqueIds(recorded)
      ensures Valid()
      ensures startingId == MaxId(recorded) && seed == startingId && issued == []
      ensures table == recorded && this.errMessages == errMessages
    {
      MaxIdIsMax(recorded);
      startingId := MaxId(recorded);
      seed := MaxId(recorded);
      issued := [];
      table := recorded;
      this.errMessages := errMessages;
    }

    /** `_get_id`: the next id, larger than every stored one. */
    method GetId() returns (id: int)
      requires Valid()
      modifies this
      ensures Valid()
      ensures id == old(startingId) + 1 && startingId == id && issued == old(issued) + [id]
      ensures table == old(table) && errMessages == old(errMessages)
      ensures forall i :: 0 <= i < |table| ==> table[i].file.id < id
    {
      startingId := startingId + 1;
      issued := issued + [startingId];
      id := startingId;
    }

    /** `_to_entity`: the path is converted with the next id, and the message of a
        skipped path is logged. */
    method ConvertNext(path: string, convert: (string, int) -> Converted) returns (c: Converted)
      requires Valid()
      modifies this
      ensures Valid()
      ensures c == convert(path, old(startingId) + 1)
      ensures startingId == old(startingId) + 1 && table == old(table)
      ensures errMessages == old(errMessages) + LoggedPiece(c)
    {
      var id := GetId();
      c := convert(path, id);
      if c.Skipped? {
        errMessages := errMessages + [c.message];
      }
    }

    /** The `p.map(do, new_pathes)` step of `work`, run in order: every path is converted
        with the next id, and the messages of skipped paths are logged. */
    method ConvertEach(incoming: seq<string>, convert: (string, int) -> Converted) returns (cs: seq<Converted>)
      requires Valid()
      modifies this
      ensures Valid()
      ensures cs == ConvertAll(incoming, old(startingId), convert)
      ensures startingId == old(startingId) + |incoming| && table == old(table)
      ensures errMessages == old(errMessages) + LoggedOf(cs)
    {
      var start := startingId;
      cs := [];
      for i := 0 to |incoming|
        invariant Valid()
        invariant startingId == start + i && table == old(table)
        invariant cs == ConvertAll(incoming[..i], start, convert)
        invariant errMessages == old(errMessages) + LoggedOf(cs)
      {
        var c := ConvertNext(incoming[i], convert);
        LogStep(old(errMessages), cs, c);
        ConvertAllStep(incoming, i, start, convert);
        cs := cs + [c];
      }
      assert incoming[..|incoming|] == incoming;
    }

    /** The part of `work` after the difference: convert every new path and, unless a
        conversion raised, commit the records made (`_commit_news`). */
    method ConvertAndCommit(incoming: seq<string>, convert: (string, int) -> Converted) returns (r: WorkResult)
      requires Valid() && KeepsIds(convert)
      modifies this
      ensures Valid()
      ensures var cs := ConvertAll(incoming, old(startingId), convert);
        && startingId == old(startingId) + |incoming|
        && errMessages == old(errMessages) + LoggedOf(cs)
        && (FirstFailure(cs).Some? ==> r == Aborted(FirstFailure(cs).value) && table == old(table))
        && (FirstFailure(cs).None? ==> r == Committed(|MadeOf(cs)|) && table == old(table) + MadeOf(cs))
    {
      var start := startingId;
      var cs := ConvertEach(incoming, convert);
      var failure := FirstFailure(cs);
      if failure.Some? {
        return Aborted(failure.value);
      }
      var news := MadeOf(cs);
      MadeIdsFresh(incoming, start, convert);
      AppendFresh(table, news, start, startingId);
      table := table + news;
      r := Committed(|news|);
    }

    /** `work`: scan the configured paths, convert every new one, and commit the records
        unless a conversion raised. `walk` is `os.walk` on the disk and `convert` is
        `_to_entity` on it, `Converter(root, loadedAt, opens, saves)`. */
    method Work(scanPathes: seq<string>, walk: string -> seq<Step>, convert: (string, int) -> Converted)
      returns (r: WorkResult)
      requires Valid() && KeepsIds(convert)
      modifies this
      ensures Valid()
      ensures Dedup(Emitted(ComicExts, scanPathes, walk)) == [] ==> r == NoFiles && unchanged(this)
      ensures var incoming := NewPaths(Dedup(Emitted(ComicExts, scanPathes, walk)), old(table));
        Dedup(Emitted(ComicExts, scanPathes, walk)) != [] && incoming == [] ==> r == NothingNew && unchanged(this)
      ensures var incoming := NewPaths(Dedup(Emitted(ComicExts, scanPathes, walk)), old(table));
        var cs := ConvertAll(incoming, old(startingId), convert);
        incoming != [] ==>
          && startingId == old(startingId) + |incoming|
          && errMessages == old(errMessages) + LoggedOf(cs)
          && (FirstFailure(cs).Some? ==> r == Aborted(FirstFailure(cs).value) && table == old(table))
          && (FirstFailure(cs).None? ==> r == Committed(|MadeOf(cs)|) && table == old(table) + MadeOf(cs))
    {
      var scanned := Scan(ComicExts, scanPathes, walk);
      if scanned == [] {
        return NoFiles;
      }
      var incoming := NewPaths(scanned, table);
      if incoming == [] {
        return NothingNew;
      }
      r := ConvertAndCommit(incoming, convert);
    }

    /** `load(path)`: a recorded path raises and changes nothing; otherwise the path is
        converted with the next id and its record, if any, stored. */
    method Load(path: string, convert: (string, int) -> Converted) returns (err: Option<Exc>)
      requires Valid() && KeepsIds(convert)
      modifies this
      ensures Valid()
      ensures Recorded(old(table), path) ==>
        err == Some(Exc(Exception, path + " already exists in db.")) && unchanged(this)
      ensures !Recorded(old(table), path) ==>
        var c := convert(path, old(startingId) + 1);
        && startingId == old(startingId) + 1
        && (c.Failed? ==> err == Some(c.exc) && table == old(table) && errMessages == old(errMessages))
        && (c.Skipped? ==> err == None && table == old(table) && errMessages == old(errMessages) + [c.message])
        && (c.Made? ==> err == None && table == old(table) + [c.entity] && errMessages == old(errMessages))
    {
      if exists i :: 0 <= i < |table| && table[i].file.path == path {
        return Some(Exc(Exception, path + " already exists in db."));
      }
      var c := ConvertNext(path, convert);
      match c
      case Failed(e) =>
        err := Some(e);
      case Skipped(_) =>
        err := None;
      case Made(e) =>
        table := table + [e];
        err := None;
    }
  }
}
