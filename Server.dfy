/** The catalog server's handlers and its periodic view-history job. The database
    tables, the cache of open comic readers, the files on disk and the web server's
    access log are fields of a `Backend`; each handler is a method on it. */
module Server {
  import opened PyText
  import opened Lists
  import opened FileTree
  import opened Entities
  import opened ComicFile
  import Loader

  // ---------------------------------------------------------------- access log

  /** An access-log line that matched the request pattern, its fields already
      converted: the resource segment of `GET /api/<resource>/<id>/<position>`, the
      two numbers and the request time in seconds. A line that does not match is
      `None`. */
  datatype LogRecord = LogRecord(resource: string, id: nat, position: nat, time: int)

  type LogLine = Option<LogRecord>

  /** A Python dict with integer keys: the keys in insertion order and the values.
      Assigning to a key already present replaces its value and keeps its place. */
  datatype Dict<V> = Dict(keys: seq<int>, values: map<int, V>)

  ghost predicate WellFormed<V>(d: Dict<V>)
  {
    NoDup(d.keys) && forall k :: k in d.values <==> k in d.keys
  }

  /** `d[k] = v`. */
  function Put<V>(d: Dict<V>, k: int, v: V): (r: Dict<V>)
    ensures WellFormed(d) ==> WellFormed(r)
    ensures r.values == d.values[k := v]
    ensures |r.keys| == |d.keys| + (if k in d.keys then 0 else 1)
  {
    Dict(if k in d.keys then d.keys else d.keys + [k], d.values[k := v])
  }

  /** The dict the job fills for one resource (`comic_dict` for "comics",
      `video_dict` for "videos"): every matching line for that resource assigns
      `value` of its record to the record's id, in log order. */
  function Visits<V>(lines: seq<LogLine>, resource: string, value: LogRecord -> V): (d: Dict<V>)
    ensures WellFormed(d)
  {
    if lines == [] then Dict([], map[])
    else
      var d := Visits(lines[..|lines| - 1], resource, value);
      var line := lines[|lines| - 1];
      if line.Some? && line.value.resource == resource then Put(d, line.value.id, value(line.value)) else d
  }

  /** The value of the last line for `resource` and `id`, searching back from the end. */
  function LastVisit<V>(lines: seq<LogLine>, resource: string, value: LogRecord -> V, id: int): (r: Option<V>)
    ensures r.None? <==> forall i :: 0 <= i < |lines| ==> lines[i] != None ==>
                           lines[i].value.resource != resource || lines[i].value.id != id
  {
    if lines == [] then None
    else
      var line := lines[|lines| - 1];
      if line.Some? && line.value.resource == resource && line.value.id == id then Some(value(line.value))
      else
        var r := LastVisit(lines[..|lines| - 1], resource, value, id);
        assert forall i :: 0 <= i < |lines| - 1 ==> lines[i] == lines[..|lines| - 1][i];
        r
  }

  /** The record of `comic_dict`: time and page. */
  function ComicValue(r: LogRecord): (int, nat)
  {
    (r.time, r.position)
  }

  /** The record of `video_dict`: the time only. */
  function VideoValue(r: LogRecord): int
  {
    r.time
  }

  /** Last wins: for every id the dict holds the value of the last line for that id,
      and holds the id at all only when such a line exists. */
  lemma {:induction false} VisitsLast<V>(lines: seq<LogLine>, resource: string, value: LogRecord -> V, id: int)
    ensures id in Visits(lines, resource, value).values <==> LastVisit(lines, resource, value, id).Some?
    ensures id in Visits(lines, resource, value).values ==>
              Visits(lines, resource, value).values[id] == LastVisit(lines, resource, value, id).value
  {
    if lines != [] {
      VisitsLast(lines[..|lines| - 1], resource, value, id);
    }
  }

  lemma VisitsSnoc<V>(lines: seq<LogLine>, line: LogLine, resource: string, value: LogRecord -> V)
    ensures Visits(lines + [line], resource, value) ==
            if line.Some? && line.value.resource == resource
            then Put(Visits(lines, resource, value), line.value.id, value(line.value))
            else Visits(lines, resource, value)
  {
    assert (lines + [line])[..|lines|] == lines;
  }

  /** Whether a log line is a request for `resource`. */
  function ForResource(resource: string): LogLine -> bool
  {
    (l: LogLine) => l.Some? && l.value.resource == resource
  }

  /** One more line keeps the dict built from all lines equal to the one built from
      the lines for the resource. */
  lemma VisitsFilterLast<V>(lines: seq<LogLine>, resource: string, value: LogRecord -> V)
    requires lines != []
    requires Visits(lines[..|lines| - 1], resource, value) ==
             Visits(Filter(lines[..|lines| - 1], ForResource(resource)), resource, value)
    ensures Visits(lines, resource, value) == Visits(Filter(lines, ForResource(resource)), resource, value)
  {
    var keep := ForResource(resource);
    var init, last := lines[..|lines| - 1], lines[|lines| - 1];
    assert lines == init + [last];
    FilterSnoc(init, last, keep);
    if keep(last) {
      VisitsSnoc(Filter(init, keep), last, resource, value);
    } else {
      assert Filter(init, keep) + [] == Filter(init, keep);
    }
  }

  /** Lines for other resources (and lines that did not match) leave the dict as the
      lines for the resource alone would make it. */
  lemma {:induction false} VisitsOnlyResource<V>(lines: seq<LogLine>, resource: string, value: LogRecord -> V)
    ensures Visits(lines, resource, value) == Visits(Filter(lines, ForResource(resource)), resource, value)
  {
    if lines != [] {
      VisitsOnlyResource(lines[..|lines| - 1], resource, value);
      VisitsFilterLast(lines, resource, value);
    }
  }

  /** The loop over the log lines: both dicts in one pass. */
  method AggregateLog(lines: seq<LogLine>) returns (comics: Dict<(int, nat)>, videos: Dict<int>)
    ensures comics == Visits(lines, "comics", ComicValue)
    ensures videos == Visits(lines, "videos", VideoValue)
  {
    comics := Dict([], map[]);
    videos := Dict([], map[]);
    var i := 0;
    while i < |lines|
      invariant 0 <= i <= |lines|
      invariant comics == Visits(lines[..i], "comics", ComicValue)
      invariant videos == Visits(lines[..i], "videos", VideoValue)
    {
      assert lines[..i + 1][..i] == lines[..i];
      match lines[i] {
        case None =>
        case Some(r) =>
          if r.resource == "comics" {
            comics := Put(comics, r.id, (r.time, r.position));
          } else if r.resource == "videos" {
            videos := Put(videos, r.id, r.time);
          }
      }
      i := i + 1;
    }
    assert lines[..|lines|] == lines;
  }

  // ---------------------------------------------------------------- history table

  /** A `ViewHistoryEntity` row: its kind ("comic" or "video"), the id, the time of
      the last view and the page, which rows the video branch creates leave unset. */
  datatype HistoryRow = HistoryRow(kind: string, id: int, updateTime: Option<int>, position: Option<int>)

  /** `(kind, id)` identifies a row: no two rows share it. */
  predicate UniqueKeys(rows: seq<HistoryRow>)
  {
    forall i, j :: 0 <= i < j < |rows| ==> rows[i].kind != rows[j].kind || rows[i].id != rows[j].id
  }

  /** Where the row for `(kind, id)` is, or -1. */
  function RowIndex(rows: seq<HistoryRow>, kind: string, id: int): (k: int)
    ensures -1 <= k < |rows|
    ensures k >= 0 ==> rows[k].kind == kind && rows[k].id == id
    ensures forall i :: 0 <= i < |rows| && (k < 0 || i < k) ==> rows[i].kind != kind || rows[i].id != id
  {
    if rows == [] then -1
    else if rows[0].kind == kind && rows[0].id == id then 0
    else
      var k := RowIndex(rows[1..], kind, id);
      assert forall i :: 1 <= i < |rows| ==> rows[i] == rows[1..][i - 1];
      if k < 0 then -1 else k + 1
  }

  /** The row `select ... where type == kind and id == id` finds. */
  function Row(rows: seq<HistoryRow>, kind: string, id: int): Option<HistoryRow>
  {
    var k := RowIndex(rows, kind, id);
    if k < 0 then None else Some(rows[k])
  }

  /** What one upsert leaves in the row for its key: an existing row gets the new
      time, and the new page when one is given; otherwise a new row is made. */
  function Updated(before: Option<HistoryRow>, kind: string, id: int, time: int, position: Option<int>): HistoryRow
  {
    match before
    case None => HistoryRow(kind, id, Some(time), position)
    case Some(row) => row.(updateTime := Some(time), position := if position.Some? then position else row.position)
  }

  /** One iteration of the job's upsert loop: look the key up, update the row in
      place or append a new one. */
  function Upsert(rows: seq<HistoryRow>, kind: string, id: int, time: int, position: Option<int>): (r: seq<HistoryRow>)
    ensures |r| == |rows| + (if Row(rows, kind, id).None? then 1 else 0)
    ensures forall i :: 0 <= i < |rows| && (rows[i].kind != kind || rows[i].id != id) ==> r[i] == rows[i]
  {
    var k := RowIndex(rows, kind, id);
    if k < 0 then rows + [Updated(None, kind, id, time, position)]
    else rows[k := Updated(Some(rows[k]), kind, id, time, position)]
  }

  /** After an upsert the key's row is the updated one and every other key's row is
      as it was. */
  lemma UpsertRow(rows: seq<HistoryRow>, kind: string, id: int, time: int, position: Option<int>, kind': string, id': int)
    ensures Row(Upsert(rows, kind, id, time, position), kind', id') ==
            if kind' == kind && id' == id then Some(Updated(Row(rows, kind, id), kind, id, time, position))
            else Row(rows, kind', id')
  {
    var r := Upsert(rows, kind, id, time, position);
    var k := RowIndex(rows, kind, id);
    var k' := RowIndex(rows, kind', id');
    var n := RowIndex(r, kind', id');
    if kind' != kind || id' != id {
      if k' >= 0 {
        assert r[k'] == rows[k'];
      }
    } else if k < 0 {
      assert r[|rows|] == Updated(None, kind, id, time, position);
      assert n == |rows|;
    } else {
      assert r[k] == Updated(Some(rows[k]), kind, id, time, position);
      assert n == k;
    }
  }

  /** Upserting keeps each key to one row. */
  lemma UpsertUnique(rows: seq<HistoryRow>, kind: string, id: int, time: int, position: Option<int>)
    requires UniqueKeys(rows)
    ensures UniqueKeys(Upsert(rows, kind, id, time, position))
  {
  }

  /** The upsert of a comic visit: time and page. */
  function ComicUpdate(v: (int, nat)): (int, Option<int>)
  {
    (v.0, Some(v.1 as int))
  }

  /** The upsert of a video visit: the time, the page left as it is. */
  function VideoUpdate(v: int): (int, Option<int>)
  {
    (v, None)
  }

  /** The loop over `d.items()`: one upsert per key, in the dict's order. */
  function UpsertAll<V>(rows: seq<HistoryRow>, kind: string, keys: seq<int>, values: map<int, V>,
                        update: V -> (int, Option<int>)): seq<HistoryRow>
    requires forall k :: k in keys ==> k in values
  {
    if keys == [] then rows
    else
      var last := keys[|keys| - 1];
      var u := update(values[last]);
      Upsert(UpsertAll(rows, kind, keys[..|keys| - 1], values, update), kind, last, u.0, u.1)
  }

  lemma {:induction false} UpsertAllUnique<V>(rows: seq<HistoryRow>, kind: string, keys: seq<int>, values: map<int, V>,
                                              update: V -> (int, Option<int>))
    requires forall k :: k in keys ==> k in values
    requires UniqueKeys(rows)
    ensures UniqueKeys(UpsertAll(rows, kind, keys, values, update))
  {
    if keys != [] {
      var init := keys[..|keys| - 1];
      assert forall k :: k in init ==> k in keys;
      UpsertAllUnique(rows, kind, init, values, update);
      var last := keys[|keys| - 1];
      assert last in keys;
      assert last in values;
      var u := update(values[last]);
      UpsertUnique(UpsertAll(rows, kind, init, values, update), kind, last, u.0, u.1);
    }
  }

  /** The table after the loop, key by key: each key of the dict has its row updated
      once from the row it had before, every other row is as it was. */
  lemma {:induction false} UpsertAllRow<V>(rows: seq<HistoryRow>, kind: string, keys: seq<int>, values: map<int, V>,
                                           update: V -> (int, Option<int>), kind': string, id': int)
    requires forall k :: k in keys ==> k in values
    requires NoDup(keys)
    ensures Row(UpsertAll(rows, kind, keys, values, update), kind', id') ==
            if kind' == kind && id' in keys
            then Some(Updated(Row(rows, kind, id'), kind, id', update(values[id']).0, update(values[id']).1))
            else Row(rows, kind', id')
  {
    if keys != [] {
      var init := keys[..|keys| - 1];
      var last := keys[|keys| - 1];
      assert keys == init + [last];
      assert forall k :: k in init ==> k in keys;
      assert last !in init by {
        forall i | 0 <= i < |init| ensures init[i] != last {
          assert init[i] == keys[i];
        }
      }
      UpsertAllRow(rows, kind, init, values, update, kind', id');
      UpsertAllRow(rows, kind, init, values, update, kind, last);
      var u := update(values[last]);
      UpsertRow(UpsertAll(rows, kind, init, values, update), kind, last, u.0, u.1, kind', id');
    }
  }

  // ---------------------------------------------------------------- the job as a whole

  /** The history table after the job has processed the log `lines`: the comic
      visits upserted first, then the video visits. */
  function AfterJob(rows: seq<HistoryRow>, lines: seq<LogLine>): seq<HistoryRow>
  {
    var c := Visits(lines, "comics", ComicValue);
    var v := Visits(lines, "videos", VideoValue);
    UpsertAll(UpsertAll(rows, "comic", c.keys, c.values, ComicUpdate), "video", v.keys, v.values, VideoUpdate)
  }

  /** The job, key by key: a comic id in the log gets the time and page of its last
      line, a video id the time of its last line, and every other row is untouched. */
  lemma AfterJobRow(rows: seq<HistoryRow>, lines: seq<LogLine>, kind: string, id: int)
    ensures Row(AfterJob(rows, lines), kind, id) ==
            if kind == "comic" && LastVisit(lines, "comics", ComicValue, id).Some? then
              var v := LastVisit(lines, "comics", ComicValue, id).value;
              Some(Updated(Row(rows, "comic", id), "comic", id, v.0, Some(v.1 as int)))
            else if kind == "video" && LastVisit(lines, "videos", VideoValue, id).Some? then
              var t := LastVisit(lines, "videos", VideoValue, id).value;
              Some(Updated(Row(rows, "video", id), "video", id, t, None))
            else Row(rows, kind, id)
  {
    var c := Visits(lines, "comics", ComicValue);
    var v := Visits(lines, "videos", VideoValue);
    VisitsLast(lines, "comics", ComicValue, id);
    VisitsLast(lines, "videos", VideoValue, id);
    var mid := UpsertAll(rows, "comic", c.keys, c.values, ComicUpdate);
    UpsertAllRow(mid, "video", v.keys, v.values, VideoUpdate, kind, id);
    UpsertAllRow(rows, "comic", c.keys, c.values, ComicUpdate, kind, id);
    UpsertAllRow(rows, "comic", c.keys, c.values, ComicUpdate, "video", id);
  }

  /** The job never gives a key a second row. */
  lemma AfterJobUnique(rows: seq<HistoryRow>, lines: seq<LogLine>)
    requires UniqueKeys(rows)
    ensures UniqueKeys(AfterJob(rows, lines))
  {
    var c := Visits(lines, "comics", ComicValue);
    var v := Visits(lines, "videos", VideoValue);
    UpsertAllUnique(rows, "comic", c.keys, c.values, ComicUpdate);
    UpsertAllUnique(UpsertAll(rows, "comic", c.keys, c.values, ComicUpdate), "video", v.keys, v.values, VideoUpdate);
  }

  // ---------------------------------------------------------------- comic list

  /** A `LikeEntity` row: the kind of thing liked and its id. */
  datatype Like = Like(kind: string, id: int)

  /** `like_ids`: the ids of the liked things of one kind. */
  function LikedIds(likes: seq<Like>, kind: string): (ids: set<int>)
    ensures forall id :: id in ids <==> Like(kind, id) in likes
  {
    set l | l in likes && l.kind == kind :: l.id
  }

  /** The last row for `(kind, id)`, searching back from the end. */
  function LastRow(rows: seq<HistoryRow>, kind: string, id: int): (r: Option<HistoryRow>)
    ensures r.Some? ==> r.value in rows && r.value.kind == kind && r.value.id == id
  {
    if rows == [] then None
    else if rows[|rows| - 1].kind == kind && rows[|rows| - 1].id == id then Some(rows[|rows| - 1])
    else LastRow(rows[..|rows| - 1], kind, id)
  }

  /** Where keys are unique the last row for a key is its only row. */
  lemma {:induction false} LastRowUnique(rows: seq<HistoryRow>, kind: string, id: int)
    requires UniqueKeys(rows)
    ensures LastRow(rows, kind, id) == Row(rows, kind, id)
  {
    if rows != [] {
      var init := rows[..|rows| - 1];
      assert UniqueKeys(init) by {
        forall i, j | 0 <= i < j < |init| ensures init[i].kind != init[j].kind || init[i].id != init[j].id {
          assert init[i] == rows[i] && init[j] == rows[j];
        }
      }
      LastRowUnique(init, kind, id);
      var k := RowIndex(init, kind, id);
      var n := RowIndex(rows, kind, id);
      if k >= 0 {
        assert rows[k] == init[k];
      }
    }
  }

  /** `id2history`: each id's last comic row, filled by assignment in row order. */
  function ById(rows: seq<HistoryRow>, kind: string): map<int, HistoryRow>
  {
    if rows == [] then map[]
    else
      var m := ById(rows[..|rows| - 1], kind);
      var e := rows[|rows| - 1];
      if e.kind == kind then m[e.id := e] else m
  }

  lemma {:induction false} ByIdLast(rows: seq<HistoryRow>, kind: string, id: int)
    ensures id in ById(rows, kind) <==> LastRow(rows, kind, id).Some?
    ensures id in ById(rows, kind) ==> ById(rows, kind)[id] == LastRow(rows, kind, id).value
  {
    if rows != [] {
      ByIdLast(rows[..|rows| - 1], kind, id);
    }
  }

  /** A `ComicResponse`: the comic record's fields, whether it is liked, and the page
      and time of its last view. */
  datatype ComicResponse = ComicResponse(comic: ComicEntity, like: bool, lastViewed: Option<int>, lastViewedTime: Option<int>)

  /** The field names `comic.dict()` gives for a `ComicEntity`. */
  const ComicFields: seq<string> := ["id", "size", "name", "path", "updateTime", "archived", "favorited",
                                     "lastViewedTime", "lastViewedPosition", "coverPosition", "entityUpdateTime", "page"]

  /** The keywords the list handler passes besides `**comic.dict()`. */
  const ResponseKeywords: seq<string> := ["like", "lastViewed", "lastViewedTime"]

  /** A call `f(**d, k1=…, k2=…)`: Python refuses a keyword that `d` already holds
      with a `TypeError` naming the first such keyword. */
  function KeywordClash(fields: seq<string>, keywords: seq<string>): (r: Option<Exc>)
    ensures r.None? <==> forall i :: 0 <= i < |keywords| ==> keywords[i] !in fields
    ensures r.Some? ==> r.value.kind == TypeError && r.value.msg in keywords && r.value.msg in fields
  {
    if keywords == [] then None
    else if keywords[0] in fields then Some(Exc(TypeError, keywords[0]))
    else
      var r := KeywordClash(fields, keywords[1..]);
      assert forall i :: 1 <= i < |keywords| ==> keywords[i] == keywords[1..][i - 1];
      r
  }

  /** As written, the response of every comic raises: the record already has a
      `lastViewedTime` field, so the keyword is given twice. */
  lemma ResponseAsWritten()
    ensures KeywordClash(ComicFields, ResponseKeywords) == Some(Exc(TypeError, "lastViewedTime"))
  {
    assert "like" !in ComicFields;
    assert "lastViewed" !in ComicFields;
    assert ComicFields[7] == "lastViewedTime";
  }

  /** One element of the list: the record, whether its id is liked, and the last
      view of `history` (page 0 and no time when there is none). */
  function Respond(c: ComicEntity, liked: set<int>, history: map<int, HistoryRow>): ComicResponse
  {
    var id := c.file.id;
    ComicResponse(c, id in liked,
                  if id in history then history[id].position else Some(0),
                  if id in history then history[id].updateTime else None)
  }

  // ---------------------------------------------------------------- cleanup

  /** The comics `clean_comic_entity` selects: their path is gone from the disk and
      they are not liked. */
  function Orphans(comics: seq<ComicEntity>, present: set<string>, liked: set<int>): seq<ComicEntity>
  {
    Filter(comics, Orphan(present, liked))
  }

  /** The test the cleanup applies to one comic. */
  function Orphan(present: set<string>, liked: set<int>): ComicEntity -> bool
  {
    (c: ComicEntity) => c.file.path !in present && c.file.id !in liked
  }

  lemma OrphansSnoc(comics: seq<ComicEntity>, c: ComicEntity, present: set<string>, liked: set<int>)
    ensures Orphans(comics + [c], present, liked) ==
            Orphans(comics, present, liked) + (if c.file.path !in present && c.file.id !in liked then [c] else [])
  {
    FilterSnoc(comics, c, Orphan(present, liked));
  }

  /** A comic is selected exactly when it is missing from the disk and not liked. */
  lemma OrphansExactly(comics: seq<ComicEntity>, present: set<string>, liked: set<int>, c: ComicEntity)
    ensures c in Orphans(comics, present, liked) <==> c in comics && c.file.path !in present && c.file.id !in liked
  {
    if c in comics && c.file.path !in present && c.file.id !in liked {
      var i :| 0 <= i < |comics| && comics[i] == c;
    }
    if c in Orphans(comics, present, liked) {
      var r := Orphans(comics, present, liked);
      var i :| 0 <= i < |r| && r[i] == c;
    }
  }

  // ---------------------------------------------------------------- image list

  /** An image in the image directory: its name, its joined path and its time. */
  datatype ImageFile = ImageFile(name: string, path: string, mtime: int)

  /** The file names the first step of `os.walk(dir)` lists, none when `dir` is not
      a directory. */
  function TopFiles(tree: Node, dir: string): seq<string>
  {
    match Resolve(tree, dir)
    case None => []
    case Some(n) => var w := Walk(dir, n); if w == [] then [] else w[0].files
  }

  /** The list the loop builds, `os.stat` of each joined path giving its time; `None`
      when a `stat` raises. */
  function Stats(tree: Node, dir: string, names: seq<string>): (r: Option<seq<ImageFile>>)
    ensures r.Some? ==> |r.value| == |names|
  {
    if names == [] then Some([])
    else
      match Stats(tree, dir, names[..|names| - 1])
      case None => None
      case Some(prefix) =>
        var f := names[|names| - 1];
        match Stat(tree, Join(dir, f))
        case None => None
        case Some(t) => Some(prefix + [ImageFile(f, Join(dir, f), t)])
  }

  /** `os.stat` of a path in the tree: the time of what it names, if anything. */
  function Stat(tree: Node, path: string): Option<int>
  {
    match Resolve(tree, path)
    case None => None
    case Some(n) => Some(n.mtime)
  }

  /** The list is built exactly when every joined path exists. */
  lemma {:induction false} StatsFail(tree: Node, dir: string, names: seq<string>)
    ensures Stats(tree, dir, names).Some? <==> forall i :: 0 <= i < |names| ==> Stat(tree, Join(dir, names[i])).Some?
  {
    if names != [] {
      var init := names[..|names| - 1];
      StatsFail(tree, dir, init);
      assert forall i :: 0 <= i < |init| ==> init[i] == names[i];
    }
  }

  /** One more stated name appends its image. */
  lemma StatsStep(tree: Node, dir: string, names: seq<string>, i: nat)
    requires i < |names| && Stats(tree, dir, names[..i]).Some? && Stat(tree, Join(dir, names[i])).Some?
    ensures Stats(tree, dir, names[..i + 1]) ==
      Some(Stats(tree, dir, names[..i]).value + [ImageFile(names[i], Join(dir, names[i]), Stat(tree, Join(dir, names[i])).value)])
  {
    assert names[..i + 1][..i] == names[..i];
  }

  /** Each listed name gives the image of its joined path, in listing order. */
  lemma {:induction false} StatsEach(tree: Node, dir: string, names: seq<string>, i: nat)
    requires Stats(tree, dir, names).Some? && i < |names|
    ensures Stat(tree, Join(dir, names[i])).Some?
    ensures Stats(tree, dir, names).value[i] == ImageFile(names[i], Join(dir, names[i]), Stat(tree, Join(dir, names[i])).value)
  {
    var init := names[..|names| - 1];
    if i < |init| {
      StatsEach(tree, dir, init, i);
      assert names[i] == init[i];
    }
  }

  /** The order `images.sort(key=path, reverse=True)` puts images in. */
  predicate PathDescending(a: ImageFile, b: ImageFile)
  {
    LexLe(b.path, a.path)
  }

  lemma PathDescendingTotalPreorder()
    ensures TotalPreorder(PathDescending)
  {
    forall a, b ensures PathDescending(a, b) || PathDescending(b, a) {
      LexLeTotal(a.path, b.path);
    }
    forall a, b, c | PathDescending(a, b) && PathDescending(b, c) ensures PathDescending(a, c) {
      LexLeTrans(c.path, b.path, a.path);
    }
  }

  /** The name, path and time an image record keeps. */
  function AsImage(f: FileEntity): ImageFile
  {
    ImageFile(f.name, f.path, f.updateTime)
  }

  /** The loop of the image handler: each name joined to `dir` and stated; the
      first `stat` that raises ends it. */
  method StatImages(tree: Node, dir: string, names: seq<string>) returns (r: Outcome<seq<ImageFile>>)
    ensures r.Err? <==> Stats(tree, dir, names).None?
    ensures r.Ok? ==> r.value == Stats(tree, dir, names).value
    ensures r.Err? ==> r.exc.kind == FileNotFoundError
  {
    var images: seq<ImageFile> := [];
    var i := 0;
    while i < |names|
      invariant 0 <= i <= |names|
      invariant Stats(tree, dir, names[..i]) == Some(images)
    {
      var path := Join(dir, names[i]);
      var t := Stat(tree, path);
      if t.None? {
        assert Stats(tree, dir, names).None? by {
          StatsFail(tree, dir, names);
        }
        return Err(Exc(FileNotFoundError, path));
      }
      StatsStep(tree, dir, names, i);
      images := images + [ImageFile(names[i], path, t.value)];
      i := i + 1;
    }
    assert names[..|names|] == names;
    r := Ok(images);
  }

  /** `[FileEntity(id=i, name=…, path=…, size=0, updateTime=…) for i, f in
      enumerate(images)]`: the records keep each image's name, path and time. */
  function Numbered(images: seq<ImageFile>, loadedAt: int): (r: seq<FileEntity>)
    ensures |r| == |images|
    ensures Map(r, AsImage) == images
    ensures forall i :: 0 <= i < |r| ==> r[i] == NewFileEntity(i, 0, r[i].name, r[i].path, r[i].updateTime, loadedAt)
  {
    var r := seq(|images|, k requires 0 <= k < |images| =>
                   NewFileEntity(k, 0, images[k].name, images[k].path, images[k].mtime, loadedAt));
    assert Map(r, AsImage) == images;
    r
  }

  // ---------------------------------------------------------------- handlers

  /** What a handler answers. */
  datatype Reply =
    | Done                    // 200 with no body
    | Image(data: Bytes)      // 200, an image/jpeg body
    | NotFound                // abort(404)
    | ErrorJson(exc: Exc)     // 500 with {"error": str(e)}
    | Uncaught(exc: Exc)      // an exception left the handler: 500

  /** A page read as the page handler answers it. */
  function Answer(r: PageRead): Reply
  {
    match r
    case Page(data) => Image(data)
    case NoPage => NotFound
    case Raised(e) => Uncaught(e)
  }

  /** How the page handler answers a directory comic's page `e`: the bytes of the file
      the entry's path names, or the `FileNotFoundError` of opening a missing file. */
  function DirPageReply(dir: string, e: DirItem, files: map<string, Bytes>): (r: Reply)
    ensures r.Image? <==> EntryPath(dir, e.name) in files
    ensures r.Image? ==> r.data == files[EntryPath(dir, e.name)]
    ensures r.Uncaught? ==> r.exc.kind == FileNotFoundError
  {
    var full := EntryPath(dir, e.name);
    if full in files then Image(files[full]) else Uncaught(Exc(FileNotFoundError, full))
  }

  /** Where the comic with `id` is in the table, or -1. */
  function ComicIndex(comics: seq<ComicEntity>, id: int): (k: int)
    ensures -1 <= k < |comics|
    ensures k >= 0 ==> comics[k].file.id == id
    ensures k < 0 ==> forall i :: 0 <= i < |comics| ==> comics[i].file.id != id
  {
    if comics == [] then -1
    else if comics[|comics| - 1].file.id == id then |comics| - 1
    else ComicIndex(comics[..|comics| - 1], id)
  }

  /** The record with the archive flag set. */
  function Archived(c: ComicEntity): ComicEntity
  {
    c.(file := c.file.(archived := true))
  }

  /** Flagging a record archived keeps the ids unique. */
  lemma ArchivedKeepsIds(comics: seq<ComicEntity>, k: nat)
    requires k < |comics| && UniqueIds(comics)
    ensures UniqueIds(comics[k := Archived(comics[k])])
  {
  }

  /** Removing a record keeps the ids unique. */
  lemma RemovedKeepsIds(comics: seq<ComicEntity>, k: nat)
    requires k < |comics| && UniqueIds(comics)
    ensures UniqueIds(comics[..k] + comics[k + 1..])
  {
    var r := comics[..k] + comics[k + 1..];
    assert forall i :: 0 <= i < |r| ==> r[i] == comics[if i < k then i else i + 1];
  }

  /** What `comic.archive = True` raises: `archive` is not a field of the record. */
  const ArchiveTypo: Exc := Exc(ValueError, "\"ComicEntity\" object has no field \"archive\"")

  /** The record has an `archived` field and no `archive` field. */
  lemma ArchiveNotAField()
    ensures "archive" !in ComicFields && "archived" in ComicFields
  {
    assert ComicFields[5] == "archived";
  }

  /** The server state the handlers read and change: the comic, like and history
      tables, the ids that have a reader in the cache, the files and directories on
      disk, and the access log (`None` when there is no log file). */
  class Backend {
    var comics: seq<ComicEntity>
    var likes: seq<Like>
    var history: seq<HistoryRow>
    var cached: set<int>
    var files: set<string>
    var dirs: set<string>
    var accessLog: Option<seq<LogLine>>
    /** The directory holding the comic covers `<id>_0.jpg`. */
    const coverDir: string
    /** The directory the image list shows. */
    const imageDir: string
    /** When the entity module was loaded: the default `entityUpdateTime`. */
    const loadedAt: int

    ghost predicate Valid()
      reads this`history, this`comics
    {
      UniqueKeys(history) && UniqueIds(comics)
    }

    constructor (comics: seq<ComicEntity>, likes: seq<Like>, history: seq<HistoryRow>, files: set<string>,
                 dirs: set<string>, accessLog: Option<seq<LogLine>>, coverDir: string, imageDir: string, loadedAt: int)
      requires UniqueKeys(history) && UniqueIds(comics)
      ensures Valid() && this.cached == {}
      ensures this.comics == comics && this.likes == likes && this.history == history
      ensures this.files == files && this.dirs == dirs && this.accessLog == accessLog
      ensures this.coverDir == coverDir && this.imageDir == imageDir && this.loadedAt == loadedAt
    {
      this.comics, this.likes, this.history := comics, likes, history;
      this.files, this.dirs, this.accessLog := files, dirs, accessLog;
      this.coverDir, this.imageDir, this.loadedAt := coverDir, imageDir, loadedAt;
      this.cached := {};
    }

    /** `os.path.exists`. */
    predicate Exists(p: string)
      reads this
    {
      p in files || p in dirs
    }

    /** One of the job's loops over a dict's items: an upsert per key, in order. */
    method UpsertEach<V>(kind: string, keys: seq<int>, values: map<int, V>, update: V -> (int, Option<int>))
      requires forall k :: k in keys ==> k in values
      modifies this`history
      ensures history == UpsertAll(old(history), kind, keys, values, update)
    {
      ghost var before := history;
      var i := 0;
      while i < |keys|
        invariant 0 <= i <= |keys|
        invariant forall k :: k in keys[..i] ==> k in values
        invariant history == UpsertAll(before, kind, keys[..i], values, update)
      {
        assert keys[..i + 1][..i] == keys[..i];
        var id := keys[i];
        assert id in keys;
        assert id in values;
        var u := update(values[id]);
        history := Upsert(history, kind, id, u.0, u.1);
        i := i + 1;
      }
      assert keys[..|keys|] == keys;
    }

    /** The job's work on a non-empty log: the two dicts, then their upserts. */
    method RecordVisits(lines: seq<LogLine>)
      requires UniqueKeys(history)
      modifies this`history
      ensures history == AfterJob(old(history), lines)
      ensures UniqueKeys(history)
    {
      var c, v := AggregateLog(lines);
      AfterJobUnique(history, lines);
      if |c.keys| > 0 {
        UpsertEach("comic", c.keys, c.values, ComicUpdate);
      }
      if |v.keys| > 0 {
        UpsertEach("video", v.keys, v.values, VideoUpdate);
      }
    }

    /** `process_view_history`: a missing or empty log changes nothing; otherwise the
        comic and video visits are upserted and the log is emptied. */
    method ProcessViewHistory()
      requires Valid()
      modifies this`history, this`accessLog
      ensures Valid()
      ensures old(accessLog) == None || old(accessLog) == Some([]) ==> history == old(history) && accessLog == old(accessLog)
      ensures old(accessLog).Some? && old(accessLog).value != [] ==>
                history == AfterJob(old(history), old(accessLog).value) && accessLog == Some([])
    {
      if accessLog.None? || accessLog.value == [] {
        return;
      }
      RecordVisits(accessLog.value);
      accessLog := Some([]);
    }

    /** `GET /api/comics`: every comic with its like flag and its last view. */
    method GetComics() returns (r: seq<ComicResponse>)
      ensures |r| == |comics|
      ensures forall i :: 0 <= i < |comics| ==> r[i].comic == comics[i]
      ensures forall i :: 0 <= i < |comics| ==> (r[i].like <==> Like("comic", comics[i].file.id) in likes)
      ensures forall i :: 0 <= i < |comics| ==>
                var last := LastRow(history, "comic", comics[i].file.id);
                r[i].lastViewed == (if last.Some? then last.value.position else Some(0)) &&
                r[i].lastViewedTime == (if last.Some? then last.value.updateTime else None)
    {
      var liked := LikedIds(likes, "comic");
      var byId: map<int, HistoryRow> := map[];
      var i := 0;
      while i < |history|
        invariant 0 <= i <= |history|
        invariant byId == ById(history[..i], "comic")
      {
        assert history[..i + 1][..i] == history[..i];
        var e := history[i];
        if e.kind == "comic" {
          byId := byId[e.id := e];
        }
        i := i + 1;
      }
      assert history[..|history|] == history;
      forall id {
        ByIdLast(history, "comic", id);
      }
      var all := comics;
      r := seq(|all|, k requires 0 <= k < |all| => Respond(all[k], liked, byId));
    }
  

    /** `clean_comic_entity`: the comics whose path is gone and that nobody liked are
        handed to `session.delete`. The session is never committed, so the tables
        stay as they are. */
    method CleanComicEntity() returns (doomed: seq<ComicEntity>)
      ensures doomed == Orphans(comics, files + dirs, LikedIds(likes, "comic"))
    {
      ghost var liked := LikedIds(likes, "comic");
      doomed := [];
      var i := 0;
      while i < |comics|
        invariant 0 <= i <= |comics|
        invariant doomed == Orphans(comics[..i], files + dirs, liked)
      {
        var c := comics[i];
        assert comics[..i + 1] == comics[..i] + [c];
        OrphansSnoc(comics[..i], c, files + dirs, liked);
        if !Exists(c.file.path) {
          if Like("comic", c.file.id) !in likes {
            doomed := doomed + [c];
          }
        }
        i := i + 1;
      }
      assert comics[..|comics|] == comics;
    }

    /** `GET /api/images`: the files directly in the image directory, by path from
        the greatest down, numbered from 0, with size 0 and every other field at its
        default. `tree` is the filesystem; a `stat` that raises fails the handler. */
    method GetImages(tree: Node) returns (r: Outcome<seq<FileEntity>>)
      ensures r.Err? <==> Stats(tree, imageDir, TopFiles(tree, imageDir)).None?
      ensures r.Ok? ==> multiset(Map(r.value, AsImage)) == multiset(Stats(tree, imageDir, TopFiles(tree, imageDir)).value)
      ensures r.Ok? ==> forall i :: 0 <= i < |r.value| ==>
                r.value[i] == NewFileEntity(i, 0, r.value[i].name, r.value[i].path, r.value[i].updateTime, loadedAt)
      ensures r.Ok? ==> forall i, j :: 0 <= i < j < |r.value| ==> LexLe(r.value[j].path, r.value[i].path)
    {
      var names := TopFiles(tree, imageDir);
      var images := StatImages(tree, imageDir, names);
      if images.Err? {
        return Err(images.exc);
      }
      PathDescendingTotalPreorder();
      SortSorted(images.value, PathDescending);
      r := Ok(Numbered(InsertionSort(images.value, PathDescending), loadedAt));
    }

    /** `GET /api/comics/<id>/<page>`. `cf` is the reader the cache holds for the
        comic, or the one `create` and `open` make for its path when the cache has
        none; the handler keeps it in the cache and reads index `page - 1`, so page 0
        reads index -1, the last page. */
    method GetComicPage(id: int, page: nat, cf: ArchiveReader) returns (reply: Reply)
      requires cf.Valid()
      modifies this`cached
      ensures ComicIndex(comics, id) < 0 ==> reply == NotFound && cached == old(cached)
      ensures ComicIndex(comics, id) >= 0 ==> cached == old(cached) + {id}
      ensures ComicIndex(comics, id) >= 0 && cf.page.None? ==> reply == Uncaught(NotOpened)
      ensures ComicIndex(comics, id) >= 0 && cf.page.Some? ==>
                var n, names := cf.page.value, cf.namelist.value;
                && (1 <= page <= n ==> reply == Answer(cf.Fetch(names[page - 1])))
                && (page > n ==> reply == NotFound)
                && (page == 0 && names != [] ==> reply == Answer(cf.Fetch(names[|names| - 1])))
                && (page == 0 && names == [] ==> reply == Uncaught(OutOfRange))
    {
      var k := ComicIndex(comics, id);
      if k < 0 {
        return NotFound;
      }
      cached := cached + {comics[k].file.id};
      var read := cf.Read(page - 1);
      reply := Answer(read);
    }

    /** The page handler with pages counted from 1 as its callers count them: page 0
        is answered like any page that does not exist. */
    method GetComicPageFrom1(id: int, page: nat, cf: ArchiveReader) returns (reply: Reply)
      requires cf.Valid()
      modifies this`cached
      ensures page == 0 ==> reply == NotFound && cached == old(cached)
      ensures ComicIndex(comics, id) < 0 ==> reply == NotFound && cached == old(cached)
      ensures ComicIndex(comics, id) >= 0 && page >= 1 ==> cached == old(cached) + {id}
      ensures ComicIndex(comics, id) >= 0 && page >= 1 && cf.page.None? ==> reply == Uncaught(NotOpened)
      ensures ComicIndex(comics, id) >= 0 && page >= 1 && cf.page.Some? ==>
                var n := cf.page.value;
                && (page <= n ==> reply == Answer(cf.Fetch(cf.namelist.value[page - 1])))
                && (page > n ==> reply == NotFound)
    {
      if page < 1 {
        return NotFound;
      }
      reply := GetComicPage(id, page, cf);
    }

    /** The same handler for a directory comic, whose reader is a `DirectoryReader`:
        the same bounds, then the page's file read from disk (`files` maps each path
        to its bytes), a missing file raising. */
    method GetDirComicPage(id: int, page: nat, cf: DirectoryReader, files: map<string, Bytes>) returns (reply: Reply)
      requires cf.Valid()
      modifies this`cached
      ensures ComicIndex(comics, id) < 0 ==> reply == NotFound && cached == old(cached)
      ensures ComicIndex(comics, id) >= 0 ==> cached == old(cached) + {id}
      ensures ComicIndex(comics, id) >= 0 && cf.page.None? ==> reply == Uncaught(NotOpened)
      ensures ComicIndex(comics, id) >= 0 && cf.page.Some? ==>
                var n, names := cf.page.value, cf.namelist.value;
                && (1 <= page <= n ==> reply == DirPageReply(cf.path, names[page - 1], files))
                && (page > n ==> reply == NotFound)
                && (page == 0 && n > 0 ==> reply == DirPageReply(cf.path, names[n - 1], files))
                && (page == 0 && n == 0 ==> reply == Uncaught(OutOfRange))
    {
      var k := ComicIndex(comics, id);
      if k < 0 {
        return NotFound;
      }
      cached := cached + {comics[k].file.id};
      var read := cf.Read(page - 1, files);
      reply := Answer(read);
    }

    /** `if os.path.exists(p): os.remove(p)`: a file is removed, a directory raises. */
    method RemoveIfExists(p: string) returns (err: Option<Exc>)
      modifies this`files
      ensures p in dirs ==> err == Some(Exc(IsADirectoryError, p)) && files == old(files)
      ensures p !in dirs ==> err == None && files == old(files) - {p}
    {
      err := None;
      if Exists(p) {
        if p in dirs {
          return Some(Exc(IsADirectoryError, p));
        }
        files := files - {p};
      }
    }

    /** `DELETE /api/comics/<id>`, with `comic.archived` as the flag. The cached reader
        is closed and dropped first. Archiving keeps the record with the flag set;
        any other `permenant` value deletes the record and removes its cover. In both
        cases the comic's own path is then removed, and removing a directory fails
        with a 500 before anything is committed. */
    method DeleteComic(id: int, permanent: string) returns (reply: Reply)
      requires Valid()
      modifies this`comics, this`cached, this`files
      ensures Valid()
      ensures ComicIndex(old(comics), id) < 0 ==>
                reply == NotFound && comics == old(comics) && cached == old(cached) && files == old(files)
      ensures ComicIndex(old(comics), id) >= 0 ==> cached == old(cached) - {id}
      ensures ComicIndex(old(comics), id) >= 0 && permanent == "false" ==>
                var k := ComicIndex(old(comics), id);
                var path := old(comics)[k].file.path;
                if path in dirs then
                  reply == ErrorJson(Exc(IsADirectoryError, path)) && comics == old(comics) && files == old(files)
                else
                  reply == Done && comics == old(comics)[k := Archived(old(comics)[k])] && files == old(files) - {path}
      ensures ComicIndex(old(comics), id) >= 0 && permanent != "false" ==>
                var k := ComicIndex(old(comics), id);
                var path := old(comics)[k].file.path;
                var cover := Loader.CoverPath(coverDir, id);
                if cover in dirs then
                  reply == Uncaught(Exc(IsADirectoryError, cover)) && comics == old(comics) && files == old(files)
                else if path in dirs then
                  reply == ErrorJson(Exc(IsADirectoryError, path)) && comics == old(comics) && files == old(files) - {cover}
                else
                  reply == Done && comics == old(comics)[..k] + old(comics)[k + 1..] && files == old(files) - {cover, path}
    {
      var k := ComicIndex(comics, id);
      if k < 0 {
        return NotFound;
      }
      var comic := comics[k];
      cached := cached - {id};
      var pending: seq<ComicEntity>;
      if permanent == "false" {
        pending := comics[k := Archived(comic)];
        ArchivedKeepsIds(comics, k);
      } else {
        pending := comics[..k] + comics[k + 1..];
        RemovedKeepsIds(comics, k);
        var cover := Loader.CoverPath(coverDir, id);
        var err := RemoveIfExists(cover);
        if err.Some? {
          return Uncaught(err.value);
        }
      }
      var err := RemoveIfExists(comic.file.path);
      if err.Some? {
        return ErrorJson(err.value);
      }
      comics := pending;
      reply := Done;
    }

    /** `DELETE /api/comics/<id>` as written: archiving assigns `comic.archive`, which
        the record does not have, so it raises after the cached reader is dropped and
        before anything else happens. */
    method DeleteComicAsWritten(id: int, permanent: string) returns (reply: Reply)
      requires Valid()
      modifies this`comics, this`cached, this`files
      ensures Valid()
      ensures ComicIndex(old(comics), id) >= 0 && permanent == "false" ==>
                reply == Uncaught(ArchiveTypo) && cached == old(cached) - {id} &&
                comics == old(comics) && files == old(files)
      ensures ComicIndex(old(comics), id) < 0 ==> reply == NotFound && comics == old(comics) && cached == old(cached)
      ensures permanent != "false" && reply == Done ==> ComicIndex(comics, id) < 0 && |comics| == |old(comics)| - 1
    {
      var k := ComicIndex(comics, id);
      if k >= 0 && permanent == "false" {
        cached := cached - {id};
        return Uncaught(ArchiveTypo);
      }
      reply := DeleteComic(id, permanent);
    }
  }
}
