/** Candidate discovery (`list_heic_to_convert`): the HEIC/HEIF files of a directory that have no
    JPEG counterpart yet, as a sorted list of path strings. */
module Discovery {
  import opened Wrappers
  import opened Paths
  import opened FileStore
  import opened Ordering

  const HeicExts: seq<string> := [".heic", ".heif"]

  /** The lower-cased suffix is one of HeicExts. */
  predicate IsHeicName(name: string) {
    Lower(Suffix(name)) in HeicExts
  }

  /** `entry.with_suffix(ext).exists()`. */
  predicate SiblingExists(vol: Volume, p: Path, ext: string) {
    var sibling := WithSuffix(p, ext);
    sibling.Some? && Exists(vol, sibling.value)
  }

  /** A regular file with a HEIC suffix and neither an exact `<stem>.jpg` nor `<stem>.jpeg` beside it. */
  predicate IsCandidate(vol: Volume, p: Path): (b: bool)
    ensures b ==> p in vol.files && |Suffix(p.name)| == 5 && p.name != ""
    ensures b ==> !Exists(vol, WithSuffix(p, ".jpg").value) && !Exists(vol, WithSuffix(p, ".jpeg").value)
  {
    && p in vol.files
    && IsHeicName(p.name)
    && !SiblingExists(vol, p, ".jpg")
    && !SiblingExists(vol, p, ".jpeg")
  }

  /** The files `Path(dir).iterdir()` yields (subdirectories are never files, so they never count). */
  ghost function Listing(vol: Volume, dir: string): set<Path> {
    set p | p in vol.files && p.dir == dir
  }

  /** `str(entry)` for the entries `keep` selects. */
  ghost function PathStrings(keep: Path -> bool, entries: set<Path>): set<string> {
    set p | p in entries && keep(p) :: PathString(p)
  }

  /** IsCandidate as a selector of entries. */
  ghost function CandidateFilter(vol: Volume): Path -> bool {
    p => IsCandidate(vol, p)
  }

  /** `str(entry)` for the candidates of `dir`. */
  ghost function CandidateStrings(vol: Volume, dir: string): set<string> {
    PathStrings(CandidateFilter(vol), Listing(vol, dir))
  }

  /** Taking one more entry of the same directory appends its string exactly when it is selected,
      and keeps `results` an enumeration of the selected strings seen so far. */
  lemma PathStringsAdd(keep: Path -> bool, dir: string, seen: set<Path>, e: Path, results: seq<string>)
    requires e !in seen && e.dir == dir
    requires forall p :: p in seen ==> p.dir == dir
    requires multiset(results) == multiset(PathStrings(keep, seen))
    ensures keep(e) ==> multiset(results + [PathString(e)]) == multiset(PathStrings(keep, seen + {e}))
    ensures !keep(e) ==> multiset(results) == multiset(PathStrings(keep, seen + {e}))
  {
    if keep(e) {
      if PathString(e) in PathStrings(keep, seen) {
        var p :| p in seen && keep(p) && PathString(p) == PathString(e);
        PathStringInjective(p, e);
      }
      assert PathStrings(keep, seen + {e}) == PathStrings(keep, seen) + {PathString(e)};
    } else {
      assert PathStrings(keep, seen + {e}) == PathStrings(keep, seen);
    }
  }

  /** A sequence enumerating the selected strings of `dir` holds the string of a file of `dir`
      exactly when that file is selected. */
  lemma PathStringsMembership(keep: Path -> bool, entries: set<Path>, dir: string, results: seq<string>)
    requires forall p :: p in entries ==> p.dir == dir
    requires multiset(results) == multiset(PathStrings(keep, entries))
    ensures forall p :: p in entries ==> (PathString(p) in results <==> keep(p))
  {
    forall p | p in entries
      ensures PathString(p) in results <==> keep(p)
    {
      if PathString(p) in results {
        assert PathString(p) in multiset(results);
        var q :| q in entries && keep(q) && PathString(q) == PathString(p);
        PathStringInjective(p, q);
      }
      if keep(p) {
        assert PathString(p) in PathStrings(keep, entries);
        assert PathString(p) in multiset(results);
      }
    }
  }

  /** Moving one entry from the unvisited to the visited set keeps their union and disjointness. */
  lemma MoveEntry(entries: set<Path>, seen: set<Path>, e: Path)
    requires e in entries && entries !! seen
    ensures (entries - {e}) + (seen + {e}) == entries + seen
    ensures (entries - {e}) !! (seen + {e})
  {
  }

  /** `list_heic_to_convert`. */
  method ListHeicToConvert(fs: FileSystem, directory: string) returns (results: seq<string>)
    ensures directory !in fs.dirs ==> results == []
    ensures directory in fs.dirs ==> Sorted(results)
    ensures directory in fs.dirs ==> multiset(results) == multiset(CandidateStrings(fs.Snapshot(), directory))
    ensures directory in fs.dirs ==>
      forall p :: p in fs.files && p.dir == directory ==> (PathString(p) in results <==> IsCandidate(fs.Snapshot(), p))
  {
    if directory !in fs.dirs {
      return [];
    }
    var vol := fs.Snapshot();
    ghost var keep := CandidateFilter(vol);
    // The entries of `iterdir()` that pass `is_file()`.
    var entries := set p | p in vol.files && p.dir == directory;
    ghost var seen: set<Path> := {};
    results := [];
    while entries != {}
      invariant entries + seen == Listing(vol, directory) && entries !! seen
      invariant forall p :: p in seen ==> p.dir == directory
      invariant multiset(results) == multiset(PathStrings(keep, seen))
      decreases |entries|
    {
      var entry :| entry in entries;
      MoveEntry(entries, seen, entry);
      entries := entries - {entry};
      PathStringsAdd(keep, directory, seen, entry, results);
      seen := seen + {entry};
      if !IsHeicName(entry.name) {
        continue;
      }
      if SiblingExists(vol, entry, ".jpg") || SiblingExists(vol, entry, ".jpeg") {
        continue;
      }
      assert keep(entry);
      results := results + [PathString(entry)];
    }
    results := InsertionSort(results);
    PathStringsMembership(keep, seen, directory, results);
  }
}
