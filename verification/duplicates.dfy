/**
 * The duplicate-grouping pass of `find_duplicates` in Duplicates.py.
 *
 * The recursive directory walk is given as the sequence of entries it yields,
 * in the order it yields them. Each entry is either not a regular file, or a
 * regular file whose processing raised `OSError`, or a regular file with its
 * bytes. The pass keeps two dictionaries: `hashes` (digest to the first path
 * seen with it) and `duplicates` (digest to every path seen with it, once a
 * second one turns up). Python dictionaries iterate in insertion order, so the
 * returned dictionary is modelled by its keys in insertion order and a map.
 */
module Duplicates {
  import opened FileHash

  type Path = string

  /** One entry yielded by the directory walk. */
  datatype Entry =
    | NotRegular(path: Path)                   // `is_file()` is false: skipped silently
    | Unreadable(path: Path)                   // `is_file()` or hashing raised `OSError`
    | Regular(path: Path, content: seq<Byte>)  // a regular file and its bytes

  /** A path that was hashed, with its digest. */
  datatype Record = Record(path: Path, digest: HexDigest)

  /** A dictionary from digest to paths, with its keys in insertion order. */
  datatype Groups = Groups(keys: seq<HexDigest>, paths: map<HexDigest, seq<Path>>)
  {
    /** Keys listed once each, exactly the keys of the map, and every group of at least two paths. */
    predicate Valid() {
      && (forall a, b :: 0 <= a < b < |keys| ==> keys[a] != keys[b])
      && (forall h :: h in paths ==> h in keys)
      && (forall i :: 0 <= i < |keys| ==> keys[i] in paths)
      && (forall h :: h in paths ==> |paths[h]| >= 2)
    }
  }

  // ---------------------------------------------------------------------------
  // Reference definitions, over the records of the successfully hashed entries

  /** The successfully hashed entries, in discovery order; each entry gives at most one record. */
  function Hashed(es: seq<Entry>, md5: seq<Byte> -> HexDigest): (rs: seq<Record>)
    ensures |rs| <= |es|
    decreases |es|
  {
    if es == [] then []
    else
      var e := es[|es| - 1];
      Hashed(es[..|es| - 1], md5) + (if e.Regular? then [Record(e.path, md5(e.content))] else [])
  }

  /** Every path hashed to `h`, in discovery order. */
  function PathsWith(rs: seq<Record>, h: HexDigest): seq<Path>
    decreases |rs|
  {
    if rs == [] then []
    else
      var r := rs[|rs| - 1];
      PathsWith(rs[..|rs| - 1], h) + (if r.digest == h then [r.path] else [])
  }

  /** The positions in `rs` of the records hashed to `h`, in increasing order. */
  function PositionsOf(rs: seq<Record>, h: HexDigest): seq<nat>
    decreases |rs|
  {
    if rs == [] then []
    else
      PositionsOf(rs[..|rs| - 1], h) + (if rs[|rs| - 1].digest == h then [|rs| - 1] else [])
  }

  /** The digests shared by two or more records, in the order their second record occurs. */
  function SecondOccurrenceOrder(rs: seq<Record>): seq<HexDigest>
    decreases |rs|
  {
    if rs == [] then []
    else
      var r := rs[|rs| - 1];
      SecondOccurrenceOrder(rs[..|rs| - 1])
        + (if |PathsWith(rs[..|rs| - 1], r.digest)| == 1 then [r.digest] else [])
  }

  /** The digests of the records, in order. */
  function Digests(rs: seq<Record>): seq<HexDigest>
  {
    seq(|rs|, i requires 0 <= i < |rs| => rs[i].digest)
  }

  /** Adding one record to the end extends the group of `h` by that record's path alone, if it has digest `h`. */
  lemma PathsWithSnoc(rs: seq<Record>, r: Record, h: HexDigest)
    ensures PathsWith(rs + [r], h) == PathsWith(rs, h) + (if r.digest == h then [r.path] else [])
  {
    assert (rs + [r])[..|rs|] == rs;
  }

  /** Adding one record to the end extends the positions of `h` by that record's position alone, if it has digest `h`. */
  lemma PositionsOfSnoc(rs: seq<Record>, r: Record, h: HexDigest)
    ensures PositionsOf(rs + [r], h) == PositionsOf(rs, h) + (if r.digest == h then [|rs|] else [])
  {
    assert (rs + [r])[..|rs|] == rs;
  }

  /** Adding one record to the end adds its digest to the key order exactly when it is that digest's second record. */
  lemma OrderSnoc(rs: seq<Record>, r: Record)
    ensures SecondOccurrenceOrder(rs + [r])
         == SecondOccurrenceOrder(rs) + (if |PathsWith(rs, r.digest)| == 1 then [r.digest] else [])
  {
    assert (rs + [r])[..|rs|] == rs;
  }

  // ---------------------------------------------------------------------------
  // The state of the pass after a prefix of the walk

  /** `hashes` maps each digest among the records `rs` to the first path hashed to it, and nothing else. */
  ghost predicate HashesTrack(hashes: map<HexDigest, Path>, rs: seq<Record>)
  {
    && (forall h :: h in hashes <==> |PathsWith(rs, h)| >= 1)
    && (forall h :: h in hashes ==> hashes[h] == PathsWith(rs, h)[0])
  }

  /**
   * The dictionary `duplicates`, given as `keys` and `groups`, holds exactly
   * the digests shared by two or more of the records `rs`, each with all of
   * its paths, keyed in the order each digest's second record occurs.
   */
  ghost predicate DuplicatesTrack(keys: seq<HexDigest>, groups: map<HexDigest, seq<Path>>, rs: seq<Record>)
  {
    && GroupsTrack(groups, rs)
    && keys == SecondOccurrenceOrder(rs)
    && Groups(keys, groups).Valid()
  }

  /** `groups` maps exactly the digests shared by two or more of the records `rs`, each to all of its paths. */
  ghost predicate GroupsTrack(groups: map<HexDigest, seq<Path>>, rs: seq<Record>)
  {
    && (forall h :: h in groups <==> |PathsWith(rs, h)| >= 2)
    && (forall h :: h in groups ==> groups[h] == PathsWith(rs, h))
  }

  /** A digest seen for the first time is recorded in `hashes` with its path; `duplicates` is untouched. */
  lemma FirstSighting(hashes: map<HexDigest, Path>, keys: seq<HexDigest>, groups: map<HexDigest, seq<Path>>, rs: seq<Record>, r: Record)
    requires HashesTrack(hashes, rs) && DuplicatesTrack(keys, groups, rs)
    requires r.digest !in hashes
    ensures HashesTrack(hashes[r.digest := r.path], rs + [r])
    ensures DuplicatesTrack(keys, groups, rs + [r])
  {
    assert |PathsWith(rs, r.digest)| == 0;
    FirstHash(hashes, rs, r);
    FirstKeepsGroups(groups, rs, r);
    OrderSnoc(rs, r);
  }

  /** The first path of a new digest is the one `hashes` records for it. */
  lemma FirstHash(hashes: map<HexDigest, Path>, rs: seq<Record>, r: Record)
    requires HashesTrack(hashes, rs) && r.digest !in hashes
    ensures HashesTrack(hashes[r.digest := r.path], rs + [r])
  {
    var hashes' := hashes[r.digest := r.path];
    forall h ensures h in hashes' <==> |PathsWith(rs + [r], h)| >= 1 {
      PathsWithSnoc(rs, r, h);
    }
    forall h | h in hashes' ensures hashes'[h] == PathsWith(rs + [r], h)[0] {
      PathsWithSnoc(rs, r, h);
    }
  }

  /** A record with a digest not seen before changes no group. */
  lemma FirstKeepsGroups(groups: map<HexDigest, seq<Path>>, rs: seq<Record>, r: Record)
    requires GroupsTrack(groups, rs) && |PathsWith(rs, r.digest)| == 0
    ensures GroupsTrack(groups, rs + [r])
  {
    forall h ensures h in groups <==> |PathsWith(rs + [r], h)| >= 2 {
      PathsWithSnoc(rs, r, h);
    }
    forall h | h in groups ensures groups[h] == PathsWith(rs + [r], h) {
      PathsWithSnoc(rs, r, h);
    }
  }

  /** A digest already in `hashes` leaves `hashes` as it is. */
  lemma RepeatSighting(hashes: map<HexDigest, Path>, rs: seq<Record>, r: Record)
    requires HashesTrack(hashes, rs)
    requires r.digest in hashes
    ensures HashesTrack(hashes, rs + [r])
  {
    forall h ensures h in hashes <==> |PathsWith(rs + [r], h)| >= 1 {
      PathsWithSnoc(rs, r, h);
    }
    forall h | h in hashes ensures hashes[h] == PathsWith(rs + [r], h)[0] {
      PathsWithSnoc(rs, r, h);
    }
  }

  /** A digest seen for the second time enters `duplicates`, last in order, with the first path and this one. */
  lemma SecondSighting(hashes: map<HexDigest, Path>, keys: seq<HexDigest>, groups: map<HexDigest, seq<Path>>, rs: seq<Record>, r: Record)
    requires HashesTrack(hashes, rs) && DuplicatesTrack(keys, groups, rs)
    requires r.digest in hashes && r.digest !in groups
    ensures DuplicatesTrack(keys + [r.digest], groups[r.digest := [hashes[r.digest], r.path]], rs + [r])
  {
    var d, group := r.digest, [hashes[r.digest], r.path];
    assert |PathsWith(rs, d)| == 1;
    SecondGroup(hashes, groups, rs, r);
    OrderSnoc(rs, r);
    AddGroup(keys, groups, d, group);
  }

  /** The group a second sighting creates holds exactly the paths of its digest. */
  lemma SecondGroup(hashes: map<HexDigest, Path>, groups: map<HexDigest, seq<Path>>, rs: seq<Record>, r: Record)
    requires HashesTrack(hashes, rs) && GroupsTrack(groups, rs)
    requires r.digest in hashes && r.digest !in groups
    ensures GroupsTrack(groups[r.digest := [hashes[r.digest], r.path]], rs + [r])
  {
    var d := r.digest;
    var groups' := groups[d := [hashes[d], r.path]];
    assert |PathsWith(rs, d)| == 1;
    PathsWithSnoc(rs, r, d);
    forall h ensures h in groups' <==> |PathsWith(rs + [r], h)| >= 2 {
      PathsWithSnoc(rs, r, h);
    }
    forall h | h in groups' ensures groups'[h] == PathsWith(rs + [r], h) {
      PathsWithSnoc(rs, r, h);
    }
  }

  /** Adding a new key with a group of two or more paths keeps a dictionary well formed. */
  lemma AddGroup(keys: seq<HexDigest>, groups: map<HexDigest, seq<Path>>, d: HexDigest, group: seq<Path>)
    requires Groups(keys, groups).Valid()
    requires d !in groups && |group| >= 2
    ensures Groups(keys + [d], groups[d := group]).Valid()
  {
    assert d !in keys;
  }

  /** A digest seen a third time or later has this path appended to its group; nothing else changes. */
  lemma LaterSighting(keys: seq<HexDigest>, groups: map<HexDigest, seq<Path>>, rs: seq<Record>, r: Record)
    requires DuplicatesTrack(keys, groups, rs)
    requires r.digest in groups
    ensures DuplicatesTrack(keys, groups[r.digest := groups[r.digest] + [r.path]], rs + [r])
  {
    var d := r.digest;
    var groups' := groups[d := groups[d] + [r.path]];
    assert |PathsWith(rs, d)| >= 2;
    forall h ensures h in groups' <==> |PathsWith(rs + [r], h)| >= 2 {
      PathsWithSnoc(rs, r, h);
    }
    forall h | h in groups' ensures groups'[h] == PathsWith(rs + [r], h) {
      PathsWithSnoc(rs, r, h);
    }
    OrderSnoc(rs, r);
  }

  // ---------------------------------------------------------------------------
  // The pass itself

  /**
   * One pass over the walk's entries. The result holds, for every digest that
   * two or more hashed files share, all of their paths in discovery order;
   * its keys are in the order each digest's second file was found.
   */
  method FindDuplicates(entries: seq<Entry>, md5: seq<Byte> -> HexDigest) returns (duplicates: Groups)
    ensures duplicates.Valid()
    ensures duplicates.keys == SecondOccurrenceOrder(Hashed(entries, md5))
    ensures forall h :: h in duplicates.paths <==> |PathsWith(Hashed(entries, md5), h)| >= 2
    ensures forall h :: h in duplicates.paths ==> duplicates.paths[h] == PathsWith(Hashed(entries, md5), h)
  {
    var hashes: map<HexDigest, Path> := map[];
    var keys: seq<HexDigest> := [];
    var groups: map<HexDigest, seq<Path>> := map[];
    for i := 0 to |entries|
      invariant HashesTrack(hashes, Hashed(entries[..i], md5))
      invariant DuplicatesTrack(keys, groups, Hashed(entries[..i], md5))
    {
      ghost var before := Hashed(entries[..i], md5);
      assert entries[..i + 1][..i] == entries[..i];
      match entries[i] {
        case Regular(path, content) =>
          ghost var parts;
          var fileHash;
          fileHash, parts := GetFileHash(content, md5);
          ghost var r := Record(path, fileHash);
          assert Hashed(entries[..i + 1], md5) == before + [r];
          if fileHash in hashes {
            if fileHash in groups {
              RepeatSighting(hashes, before, r);
              LaterSighting(keys, groups, before, r);
              groups := groups[fileHash := groups[fileHash] + [path]];
            } else {
              RepeatSighting(hashes, before, r);
              SecondSighting(hashes, keys, groups, before, r);
              groups := groups[fileHash := [hashes[fileHash], path]];
              keys := keys + [fileHash];
            }
          } else {
            FirstSighting(hashes, keys, groups, before, r);
            hashes := hashes[fileHash := path];
          }
        case NotRegular(_) =>
          assert Hashed(entries[..i + 1], md5) == before;
        case Unreadable(_) =>
          assert Hashed(entries[..i + 1], md5) == before;
      }
    }
    assert entries[..|entries|] == entries;
    duplicates := Groups(keys, groups);
  }

  // ---------------------------------------------------------------------------
  // Properties of the result

  /** The walk can be split anywhere: the hashed records of the whole are those of the parts, in order. */
  lemma {:induction false} HashedAppend(a: seq<Entry>, b: seq<Entry>, md5: seq<Byte> -> HexDigest)
    ensures Hashed(a + b, md5) == Hashed(a, md5) + Hashed(b, md5)
    decreases |b|
  {
    if b == [] {
      assert a + b == a;
    } else {
      var b' := b[..|b| - 1];
      assert (a + b)[..|a + b| - 1] == a + b';
      HashedAppend(a, b', md5);
    }
  }

  /** One more entry adds its record if it is a regular file that was read, and nothing otherwise. */
  lemma HashedSnoc(es: seq<Entry>, e: Entry, md5: seq<Byte> -> HexDigest)
    ensures Hashed(es + [e], md5) == Hashed(es, md5) + (if e.Regular? then [Record(e.path, md5(e.content))] else [])
  {
    assert (es + [e])[..|es|] == es;
  }

  /** An entry that is not a regular file, or whose processing raised `OSError`, changes nothing, wherever it occurs. */
  lemma FailureIsSkipped(before: seq<Entry>, e: Entry, after: seq<Entry>, md5: seq<Byte> -> HexDigest)
    requires !e.Regular?
    ensures Hashed(before + [e] + after, md5) == Hashed(before + after, md5)
  {
    HashedAppend(before + [e], after, md5);
    HashedAppend(before, [e], md5);
    HashedAppend(before, after, md5);
    assert Hashed([e], md5) == [] by {
      assert [e][..0] == [];
    }
  }

  /** A record is hashed exactly when some regular file of the walk has that path and a content with that digest. */
  lemma {:induction false} HashedRecords(es: seq<Entry>, md5: seq<Byte> -> HexDigest, rec: Record)
    ensures rec in Hashed(es, md5) <==>
      exists i :: 0 <= i < |es| && es[i].Regular? && es[i].path == rec.path && md5(es[i].content) == rec.digest
    decreases |es|
  {
    if es != [] {
      var es', e := es[..|es| - 1], es[|es| - 1];
      assert es == es' + [e];
      HashedSnoc(es', e, md5);
      HashedRecords(es', md5, rec);
      if exists i :: 0 <= i < |es'| && es'[i].Regular? && es'[i].path == rec.path && md5(es'[i].content) == rec.digest {
        var i :| 0 <= i < |es'| && es'[i].Regular? && es'[i].path == rec.path && md5(es'[i].content) == rec.digest;
        assert es[i] == es'[i];
      }
      if exists i :: 0 <= i < |es| && es[i].Regular? && es[i].path == rec.path && md5(es[i].content) == rec.digest {
        var i :| 0 <= i < |es| && es[i].Regular? && es[i].path == rec.path && md5(es[i].content) == rec.digest;
        if i < |es'| {
          assert es'[i] == es[i];
        }
      }
    }
  }

  /** Splitting the records splits every group the same way. */
  lemma {:induction false} PathsWithAppend(a: seq<Record>, b: seq<Record>, h: HexDigest)
    ensures PathsWith(a + b, h) == PathsWith(a, h) + PathsWith(b, h)
    decreases |b|
  {
    if b == [] {
      assert a + b == a;
    } else {
      var b' := b[..|b| - 1];
      assert (a + b)[..|a + b| - 1] == a + b';
      PathsWithAppend(a, b', h);
    }
  }

  /** Soundness and completeness of a group: a path is in the group of `h` exactly when it was hashed to `h`. */
  lemma {:induction false} PathsWithMembers(rs: seq<Record>, h: HexDigest, p: Path)
    ensures p in PathsWith(rs, h) <==> Record(p, h) in rs
    decreases |rs|
  {
    if rs != [] {
      var rs' := rs[..|rs| - 1];
      PathsWithMembers(rs', h, p);
      assert rs == rs' + [rs[|rs| - 1]];
    }
  }

  /** A group holds as many paths as there are records with its digest. */
  lemma {:induction false} PathsWithCount(rs: seq<Record>, h: HexDigest)
    ensures |PathsWith(rs, h)| == multiset(Digests(rs))[h]
    decreases |rs|
  {
    if rs != [] {
      var rs' := rs[..|rs| - 1];
      PathsWithCount(rs', h);
      assert Digests(rs) == Digests(rs') + [rs[|rs| - 1].digest];
    }
  }

  /**
   * Discovery order: the group of `h` lists the paths of the records hashed to
   * `h` in the order of their positions, and every such record is listed.
   */
  lemma {:induction false} PositionsOfOrder(rs: seq<Record>, h: HexDigest)
    ensures |PositionsOf(rs, h)| == |PathsWith(rs, h)|
    ensures forall j :: 0 <= j < |PositionsOf(rs, h)| ==>
      PositionsOf(rs, h)[j] < |rs| && rs[PositionsOf(rs, h)[j]] == Record(PathsWith(rs, h)[j], h)
    ensures forall j, k :: 0 <= j < k < |PositionsOf(rs, h)| ==> PositionsOf(rs, h)[j] < PositionsOf(rs, h)[k]
    ensures forall i :: 0 <= i < |rs| && rs[i].digest == h ==> i in PositionsOf(rs, h)
    decreases |rs|
  {
    if rs != [] {
      var rs', r := rs[..|rs| - 1], rs[|rs| - 1];
      assert rs == rs' + [r];
      PositionsOfOrder(rs', h);
      PathsWithSnoc(rs', r, h);
      PositionsOfSnoc(rs', r, h);
      var ps, ps', paths, paths' := PositionsOf(rs, h), PositionsOf(rs', h), PathsWith(rs, h), PathsWith(rs', h);
      if r.digest != h {
        assert ps == ps' && paths == paths';
        forall i | 0 <= i < |rs| && rs[i].digest == h ensures i in ps {
          assert i < |rs'| && rs'[i] == rs[i];
        }
      } else {
        assert ps == ps' + [|rs'|] && paths == paths' + [r.path];
        forall j | 0 <= j < |ps| ensures ps[j] < |rs| && rs[ps[j]] == Record(paths[j], h) {
          if j < |ps'| {
            assert ps[j] == ps'[j] && paths[j] == paths'[j] && rs[ps'[j]] == rs'[ps'[j]];
          }
        }
        forall j, k | 0 <= j < k < |ps| ensures ps[j] < ps[k] {
          if k < |ps'| {
            assert ps[j] == ps'[j] && ps[k] == ps'[k];
          } else {
            assert ps[j] == ps'[j] < |rs'|;
          }
        }
        forall i | 0 <= i < |rs| && rs[i].digest == h ensures i in ps {
          if i < |rs'| {
            assert rs'[i] == rs[i] && i in ps';
          }
        }
      }
    }
  }

  /** The first path of a group is the first path hashed to that digest (the value `hashes` keeps). */
  lemma GroupHeadIsFirstSeen(rs: seq<Record>, h: HexDigest, i: nat)
    requires i < |rs| && rs[i].digest == h
    requires forall k :: 0 <= k < i ==> rs[k].digest != h
    ensures |PathsWith(rs, h)| >= 1 && PathsWith(rs, h)[0] == rs[i].path
  {
    PositionsOfOrder(rs, h);
    var ps := PositionsOf(rs, h);
    assert i in ps;
    var k :| 0 <= k < |ps| && ps[k] == i;
    assert ps[0] <= i;
    assert rs[ps[0]].digest == h;
  }

  /** Groups only grow: after a prefix of the records, every group, and the key order, is a prefix of the final one. */
  lemma {:induction false} PrefixesGrow(rs: seq<Record>, n: nat, h: HexDigest)
    requires n <= |rs|
    ensures PathsWith(rs[..n], h) <= PathsWith(rs, h)
    ensures SecondOccurrenceOrder(rs[..n]) <= SecondOccurrenceOrder(rs)
    decreases |rs| - n
  {
    if n < |rs| {
      PrefixesGrow(rs, n + 1, h);
      var r := rs[n];
      assert rs[..n + 1] == rs[..n] + [r];
      PathsWithSnoc(rs[..n], r, h);
      OrderSnoc(rs[..n], r);
    } else {
      assert rs[..n] == rs;
    }
  }

  /** A digest is a key of the result exactly when two or more records share it, and it is listed once. */
  lemma {:induction false} SecondOccurrenceKeys(rs: seq<Record>)
    ensures forall h :: h in SecondOccurrenceOrder(rs) <==> |PathsWith(rs, h)| >= 2
    ensures forall a, b :: 0 <= a < b < |SecondOccurrenceOrder(rs)| ==>
      SecondOccurrenceOrder(rs)[a] != SecondOccurrenceOrder(rs)[b]
    decreases |rs|
  {
    if rs != [] {
      var rs', r := rs[..|rs| - 1], rs[|rs| - 1];
      SecondOccurrenceKeys(rs');
      assert rs == rs' + [r];
      OrderSnoc(rs', r);
      forall h ensures h in SecondOccurrenceOrder(rs) <==> |PathsWith(rs, h)| >= 2 {
        PathsWithSnoc(rs', r, h);
      }
    }
  }

  /** Keys are ordered by the position of each digest's second record. */
  lemma {:induction false} SecondOccurrenceSorted(rs: seq<Record>)
    ensures forall a :: 0 <= a < |SecondOccurrenceOrder(rs)| ==> |PositionsOf(rs, SecondOccurrenceOrder(rs)[a])| >= 2
    ensures forall a, b :: 0 <= a < b < |SecondOccurrenceOrder(rs)| ==>
      PositionsOf(rs, SecondOccurrenceOrder(rs)[a])[1] < PositionsOf(rs, SecondOccurrenceOrder(rs)[b])[1]
    decreases |rs|
  {
    if rs != [] {
      var rs', r := rs[..|rs| - 1], rs[|rs| - 1];
      SecondOccurrenceSorted(rs');
      assert rs == rs' + [r];
      OrderSnoc(rs', r);
      var ks, ks' := SecondOccurrenceOrder(rs), SecondOccurrenceOrder(rs');
      forall a | 0 <= a < |ks'|
        ensures |PositionsOf(rs, ks[a])| >= 2 && PositionsOf(rs, ks[a])[1] == PositionsOf(rs', ks'[a])[1] < |rs'|
      {
        assert ks[a] == ks'[a];
        PositionsOfSnoc(rs', r, ks'[a]);
        PositionsOfOrder(rs', ks'[a]);
      }
      if |ks| > |ks'| {
        var d := r.digest;
        assert ks[|ks'|] == d && |PathsWith(rs', d)| == 1;
        PositionsOfSnoc(rs', r, d);
        PositionsOfOrder(rs', d);
        assert PositionsOf(rs, d)[1] == |rs'|;
      }
    }
  }

  /** When no two records share a digest (no files, or all contents distinct), there are no groups. */
  lemma {:induction false} DistinctDigestsNoGroups(rs: seq<Record>)
    requires forall i, j :: 0 <= i < j < |rs| ==> rs[i].digest != rs[j].digest
    ensures forall h :: |PathsWith(rs, h)| <= 1
    ensures SecondOccurrenceOrder(rs) == []
    decreases |rs|
  {
    if rs != [] {
      var rs', r := rs[..|rs| - 1], rs[|rs| - 1];
      DistinctDigestsNoGroups(rs');
      assert rs == rs' + [r];
      OrderSnoc(rs', r);
      assert forall k :: 0 <= k < |rs'| ==> rs'[k].digest != r.digest by {
        forall k | 0 <= k < |rs'| ensures rs'[k].digest != r.digest {
          assert rs'[k] == rs[k];
        }
      }
      PathsWithCount(rs', r.digest);
      assert r.digest !in Digests(rs');
      forall h ensures |PathsWith(rs, h)| <= 1 {
        PathsWithSnoc(rs', r, h);
      }
    }
  }

  /** Two regular files of the walk with the same bytes end up in one group, of at least two paths. */
  lemma SameContentGrouped(es: seq<Entry>, md5: seq<Byte> -> HexDigest, i: nat, j: nat)
    requires i < j < |es|
    requires es[i].Regular? && es[j].Regular? && es[i].content == es[j].content
    ensures |PathsWith(Hashed(es, md5), md5(es[i].content))| >= 2
    ensures es[i].path in PathsWith(Hashed(es, md5), md5(es[i].content))
    ensures es[j].path in PathsWith(Hashed(es, md5), md5(es[i].content))
  {
    var h := md5(es[i].content);
    var front, back := es[..j], es[j + 1..];
    assert es == front + [es[j]] + back;
    HashedAppend(front + [es[j]], back, md5);
    HashedAppend(front, [es[j]], md5);
    assert Hashed([es[j]], md5) == [Record(es[j].path, h)] by {
      assert [es[j]][..0] == [];
    }
    var rFront := Hashed(front, md5);
    var rs := rFront + [Record(es[j].path, h)] + Hashed(back, md5);
    PathsWithAppend(rFront + [Record(es[j].path, h)], Hashed(back, md5), h);
    PathsWithSnoc(rFront, Record(es[j].path, h), h);
    HashedRecords(front, md5, Record(es[i].path, h));
    assert front[i] == es[i];
    PathsWithMembers(rFront, h, es[i].path);
    PathsWithMembers(Hashed(es, md5), h, es[i].path);
    assert es[i].path in PathsWith(rFront, h);
  }

  /** The paths of three records hashed to `h`, in record order. */
  lemma PathsWithThree(ra: Record, rb: Record, rc: Record, h: HexDigest)
    ensures PathsWith([ra, rb, rc], h)
         == (if ra.digest == h then [ra.path] else []) + (if rb.digest == h then [rb.path] else [])
          + (if rc.digest == h then [rc.path] else [])
  {
    assert [] + [ra] == [ra] && [ra] + [rb] == [ra, rb] && [ra, rb] + [rc] == [ra, rb, rc];
    PathsWithSnoc([], ra, h);
    PathsWithSnoc([ra], rb, h);
    PathsWithSnoc([ra, rb], rc, h);
  }

  /** Three records, the first two sharing a digest that the third does not have, give one group of the first two. */
  lemma OneSharedDigest(ra: Record, rb: Record, rc: Record)
    requires ra.digest == rb.digest != rc.digest
    ensures SecondOccurrenceOrder([ra, rb, rc]) == [ra.digest]
    ensures PathsWith([ra, rb, rc], ra.digest) == [ra.path, rb.path]
    ensures PathsWith([ra, rb, rc], rc.digest) == [rc.path]
    ensures forall h :: |PathsWith([ra, rb, rc], h)| >= 2 <==> h == ra.digest
  {
    var d, e := ra.digest, rc.digest;
    PathsWithThree(ra, rb, rc, d);
    PathsWithThree(ra, rb, rc, e);
    forall h ensures |PathsWith([ra, rb, rc], h)| >= 2 <==> h == d {
      PathsWithThree(ra, rb, rc, h);
    }
    assert [] + [ra] == [ra] && [ra] + [rb] == [ra, rb] && [ra, rb] + [rc] == [ra, rb, rc];
    OrderSnoc([], ra);
    PathsWithSnoc([], ra, d);
    OrderSnoc([ra], rb);
    PathsWithSnoc([ra], rb, e);
    PathsWithSnoc([], ra, e);
    OrderSnoc([ra, rb], rc);
  }

  /**
   * A walk that yields a directory, `a.txt` and `b.txt` holding "hello", an
   * unreadable file and `c.txt` holding "world": one group, of `a.txt` and
   * `b.txt` in that order, under the digest of "hello"; `c.txt` is in no group.
   */
  lemma HelloWorldWalk(md5: seq<Byte> -> HexDigest)
    requires md5([104, 101, 108, 108, 111]) != md5([119, 111, 114, 108, 100])
    ensures var hello, world := md5([104, 101, 108, 108, 111]), md5([119, 111, 114, 108, 100]);
      var rs := Hashed([NotRegular("docs"), Regular("a.txt", [104, 101, 108, 108, 111]), Unreadable("locked.txt"),
                        Regular("b.txt", [104, 101, 108, 108, 111]), Regular("c.txt", [119, 111, 114, 108, 100])], md5);
      && SecondOccurrenceOrder(rs) == [hello]
      && PathsWith(rs, hello) == ["a.txt", "b.txt"]
      && PathsWith(rs, world) == ["c.txt"]
      && (forall h :: |PathsWith(rs, h)| >= 2 <==> h == hello)
  {
    var helloBytes, worldBytes: seq<Byte> := [104, 101, 108, 108, 111], [119, 111, 114, 108, 100];
    var e0, e1, e2 := NotRegular("docs"), Regular("a.txt", helloBytes), Unreadable("locked.txt");
    var e3, e4 := Regular("b.txt", helloBytes), Regular("c.txt", worldBytes);
    var ra, rb, rc := Record("a.txt", md5(helloBytes)), Record("b.txt", md5(helloBytes)), Record("c.txt", md5(worldBytes));
    var w1 := [] + [e0];
    var w2 := w1 + [e1];
    var w3 := w2 + [e2];
    var w4 := w3 + [e3];
    var w5 := w4 + [e4];
    HashedSnoc([], e0, md5);
    HashedSnoc(w1, e1, md5);
    HashedSnoc(w2, e2, md5);
    HashedSnoc(w3, e3, md5);
    HashedSnoc(w4, e4, md5);
    assert Hashed(w5, md5) == [] + [ra] + [rb] + [rc];
    assert w5 == [e0, e1, e2, e3, e4];
    assert [] + [ra] + [rb] + [rc] == [ra, rb, rc];
    OneSharedDigest(ra, rb, rc);
  }
}
