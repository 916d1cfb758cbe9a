/** The maintenance commands of be/cli.py: the tests they apply to records and cover
    files, and the lists they report. The thread pool's `map` is the order-preserving
    map it is, computed in sequence. */
module Maintenance {
  import opened PyText
  import opened Lists
  import opened Entities
  import Loader

  /** `[x for x, k in zip(xs, flags) if not k]`: `zip` stops at the shorter list. */
  function ZipUnless<T>(xs: seq<T>, flags: seq<bool>): (r: seq<T>)
    ensures |r| <= |xs|
  {
    if xs == [] || flags == [] then []
    else (if flags[0] then [] else [xs[0]]) + ZipUnless(xs[1..], flags[1..])
  }

  /** The negation of a test. */
  function Not<T>(p: T -> bool): T -> bool
  {
    (x: T) => !p(x)
  }

  /** Pairing each element with the pool's answer for it keeps exactly the elements
      whose answer was false, in their order. */
  lemma {:induction false} ZipUnlessMap<T>(xs: seq<T>, p: T -> bool)
    ensures ZipUnless(xs, Map(xs, p)) == Filter(xs, Not(p))
  {
    if xs != [] {
      var flags := Map(xs, p);
      ZipUnlessMap(xs[1..], p);
      assert flags[1..] == Map(xs[1..], p);
      assert ZipUnless(xs, flags) == (if p(xs[0]) then [] else [xs[0]]) + ZipUnless(xs[1..], flags[1..]);
    }
  }

  // ---------------------------------------------------------------- update_durations

  /** `do` of `update_durations`: the probe's length, 0 when the probe raises. */
  function DurationOrZero(probe: Outcome<int>): int
  {
    match probe
    case Ok(d) => d
    case Err(_) => 0
  }

  /** The records `select(VideoEntity).where(durationInSecond == 0)` returns. */
  function Unmeasured(videos: seq<VideoEntity>): seq<VideoEntity>
  {
    Filter(videos, (v: VideoEntity) => v.durationInSecond == 0)
  }

  /** `update_durations`: the pool measures each selected record's path, and the
      loop over `zip(pool_output, entities)` gives each record the length measured
      from its own path. `probe` is `get_video_length`. */
  method UpdateDurations(videos: seq<VideoEntity>, probe: string -> Outcome<int>) returns (updated: seq<VideoEntity>)
    ensures |updated| == |Unmeasured(videos)|
    ensures forall i :: 0 <= i < |updated| ==>
              updated[i] == Unmeasured(videos)[i].(durationInSecond := DurationOrZero(probe(Unmeasured(videos)[i].file.path)))
    ensures forall i :: 0 <= i < |updated| ==>
              Unmeasured(videos)[i] in videos && Unmeasured(videos)[i].durationInSecond == 0
  {
    var entities := Unmeasured(videos);
    var paths := Map(entities, (e: VideoEntity) => e.file.path);
    var output := Map(paths, (p: string) => DurationOrZero(probe(p)));
    updated := [];
    var i := 0;
    while i < |output| && i < |entities|
      invariant 0 <= i <= |entities| == |output|
      invariant |updated| == i
      invariant forall k :: 0 <= k < i ==> updated[k] == entities[k].(durationInSecond := output[k])
    {
      updated := updated + [entities[i].(durationInSecond := output[i])];
      i := i + 1;
    }
  }

  // ---------------------------------------------------------------- remove_invalid_entities

  /** The row test `where(not ComicEntity.archived)` as written: Python applies `not`
      to the column attribute object, which is true, so the test is the constant
      false. */
  function NotArchivedAsWritten(c: ComicEntity): bool
  {
    false
  }

  /** The row test evidently meant: the comic is not archived. */
  function NotArchived(c: ComicEntity): bool
  {
    !c.file.archived
  }

  /** As written the selection is empty whatever the table holds, while the meant
      test selects every comic that is not archived. */
  lemma SelectionAsWritten(comics: seq<ComicEntity>)
    ensures Filter(comics, NotArchivedAsWritten) == []
    ensures forall i :: 0 <= i < |comics| && !comics[i].file.archived ==> comics[i] in Filter(comics, NotArchived)
  {
  }

  /** A record `remove_invalid_entities` reports: not archived, and its path gone. */
  function Invalid(present: set<string>): ComicEntity -> bool
  {
    (c: ComicEntity) => !c.file.archived && c.file.path !in present
  }

  /** `os.path.exists` on a record's path. */
  function Found(present: set<string>): ComicEntity -> bool
  {
    (c: ComicEntity) => c.file.path in present
  }

  /** The records a delete loop over `listed` leaves in the table. */
  function Unlisted(listed: seq<ComicEntity>): ComicEntity -> bool
  {
    (c: ComicEntity) => c !in listed
  }

  /** An element is in a filter exactly when it is in the input and passes the test. */
  lemma FilteredExactly<T>(s: seq<T>, keep: T -> bool)
    ensures forall x :: x in Filter(s, keep) <==> x in s && keep(x)
  {
    var r := Filter(s, keep);
    forall x | x in s && keep(x) ensures x in r {
      var i :| 0 <= i < |s| && s[i] == x;
    }
    forall x | x in r ensures x in s && keep(x) {
      var i :| 0 <= i < |r| && r[i] == x;
    }
  }

  /** `remove_invalid_entities` with the meant selection: the records listed, and the
      table after the deletes (kept as it is without confirmation). `present` is what
      `os.path.exists` answers true for. */
  function RemoveInvalidEntities(comics: seq<ComicEntity>, present: set<string>, confirm: bool): (r: (seq<ComicEntity>, seq<ComicEntity>))
    ensures r.0 == Filter(comics, Invalid(present))
    ensures forall c :: c in r.0 <==> c in comics && !c.file.archived && c.file.path !in present
    ensures confirm ==> r.1 == Filter(comics, Not(Invalid(present)))
    ensures !confirm ==> r.1 == comics
  {
    var selected := Filter(comics, NotArchived);
    var found := Map(selected, Found(present));
    var listed := ZipUnless(selected, found);
    assert listed == Filter(comics, Invalid(present)) by {
      ZipUnlessMap(selected, Found(present));
      FilterFilter(comics, NotArchived, Not(Found(present)), Invalid(present));
    }
    assert forall c :: c in listed <==> c in comics && Invalid(present)(c) by {
      FilteredExactly(comics, Invalid(present));
    }
    assert Filter(comics, Unlisted(listed)) == Filter(comics, Not(Invalid(present))) by {
      FilterCongruent(comics, Unlisted(listed), Not(Invalid(present)));
    }
    (listed, if confirm then Filter(comics, Unlisted(listed)) else comics)
  }

  // ---------------------------------------------------------------- remove_invalid_covers

  /** `do` of `remove_invalid_covers`: a cover file is kept when the text before its
      first `_` is no integer, or is the id of a comic. */
  function KeepsCover(cover: string, ids: set<int>): bool
  {
    match ParseInt(Prefix(cover, '_'))
    case None => true
    case Some(id) => id in ids
  }

  /** A name made of a comic's id and a text starting with `_` is kept exactly when
      a comic has that id. */
  lemma CoverOfId(id: int, rest: string, ids: set<int>)
    requires rest != [] && rest[0] == '_'
    ensures KeepsCover(IntToString(id) + rest, ids) <==> id in ids
  {
    var s := IntToString(id);
    var cover := s + rest;
    assert forall j :: 0 <= j < |s| ==> cover[j] == s[j];
    assert '_' !in s by {
      if id < 0 {
        assert s == "-" + NatToString(-id);
        assert forall j :: 1 <= j < |s| ==> s[j] == NatToString(-id)[j - 1];
      }
    }
    assert cover[|s|] == '_';
    IndexOfIsFirst(cover, '_', |s|);
    assert Prefix(cover, '_') == s;
    ParseIntToString(id);
  }

  /** The cover the loader writes for a comic (`<id>_0.jpg`) is kept exactly when
      the comic is still in the table. */
  lemma LoaderCoverKept(id: int, ids: set<int>)
    ensures KeepsCover(Loader.CoverName(id), ids) <==> id in ids
  {
    CoverOfId(id, "_0.jpg", ids);
  }

  /** `entity_ids`. */
  function Ids(comics: seq<ComicEntity>): set<int>
  {
    set c | c in comics :: c.file.id
  }

  /** `not_exist_covers`: the covers listed for removal, in listing order: those
      whose prefix is an integer that is no comic's id. */
  function StaleCovers(covers: seq<string>, comics: seq<ComicEntity>): (r: seq<string>)
    ensures forall c :: c in r <==> c in covers && !KeepsCover(c, Ids(comics))
    ensures forall c :: c in r ==> ParseInt(Prefix(c, '_')).Some? && ParseInt(Prefix(c, '_')).value !in Ids(comics)
  {
    var ids := Ids(comics);
    var keep := (c: string) => KeepsCover(c, ids);
    ZipUnlessMap(covers, keep);
    var r := ZipUnless(covers, Map(covers, keep));
    assert forall c :: c in r <==> c in covers && !KeepsCover(c, ids) by {
      forall c | c in covers && !KeepsCover(c, ids) ensures c in r {
        var i :| 0 <= i < |covers| && covers[i] == c;
      }
      forall c | c in r ensures c in covers && !KeepsCover(c, ids) {
        var i :| 0 <= i < |r| && r[i] == c;
      }
    }
    r
  }

  // ---------------------------------------------------------------- remove_conflict_names

  function NameOf(c: ComicEntity): string
  {
    c.file.name
  }

  /** `names` holds the names seen at least once in `seen`, `invalid` those seen at
      least twice. */
  ghost predicate Tracks(names: set<string>, invalid: set<string>, seen: seq<string>)
  {
    && (forall n :: n in names <==> multiset(seen)[n] >= 1)
    && (forall n :: n in invalid <==> multiset(seen)[n] >= 2)
  }

  /** One step of the loop keeps the two sets tracking the names seen. */
  lemma TracksStep(names: set<string>, invalid: set<string>, all: seq<string>, i: nat)
    requires i < |all| && Tracks(names, invalid, all[..i])
    ensures Tracks(names + {all[i]}, if all[i] in names then invalid + {all[i]} else invalid, all[..i + 1])
  {
    assert all[..i + 1] == all[..i] + [all[i]];
    assert multiset(all[..i + 1]) == multiset(all[..i]) + multiset{all[i]};
  }

  /** `remove_conflict_names`: one pass with the `names` seen so far and the
      `invalid_names` met again; the result is the names at least two comics share. */
  method ConflictNames(comics: seq<ComicEntity>) returns (invalid: set<string>)
    ensures forall n :: n in invalid <==> multiset(Map(comics, NameOf))[n] >= 2
  {
    ghost var all := Map(comics, NameOf);
    var names: set<string> := {};
    invalid := {};
    var i := 0;
    while i < |comics|
      invariant 0 <= i <= |comics|
      invariant Tracks(names, invalid, all[..i])
    {
      var name := comics[i].file.name;
      assert name == all[i];
      TracksStep(names, invalid, all, i);
      if name in names {
        invalid := invalid + {name};
      }
      names := names + {name};
      i := i + 1;
    }
    assert all[..|comics|] == all;
  }
}
