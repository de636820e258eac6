/** What the reader's walk prints and claims for one entry, and where it stops, on any
    image. */
module WalkLaws {
  import opened ByteStrings
  import opened Results
  import opened ShortNames
  import opened Geometry
  import opened Directory
  import opened Inspect
  import opened Chains

  /** The line of an entry is its first: kind, both names, size and first cluster. */
  lemma EntryLine(img: Bytes, g: Geo, e: Entry, depth: nat, visited: set<nat>, path: Text, fuel: nat)
    ensures var r := WalkEntry(img, g, e, depth, visited, path, fuel);
      r.Ok? ==>
        && r.value.lines != [] && r.value.lines[0].Listed?
        && var l := r.value.lines[0];
        && l.depth == depth && (l.isDir <==> e.isDir) && l.name == e.name && l.size == e.size && l.first == e.first
        && l.shown == ShortToName(e.short)
  {
    hide WalkDir, WalkFile, ShortToName;
  }

  /** A file's entry prints nothing else; from cluster 2 on its chain is claimed for its
      path. */
  lemma FileEntry(img: Bytes, g: Geo, e: Entry, depth: nat, visited: set<nat>, path: Text, fuel: nat)
    requires !e.isDir
    ensures var r, chain := WalkEntry(img, g, e, depth, visited, path, fuel), WalkChain(img, g, e.first, {});
      && (e.first < 2 ==> r.Ok? && r.value.walks == [])
      && (e.first >= 2 ==>
            && (r.Ok? <==> chain.Ok?)
            && (r.Ok? ==> r.value.walks == [Walk(chain.value, FileClaim(path + [47] + e.name))]))
      && (r.Ok? ==> |r.value.lines| == 1)
  {
    hide WalkChain;
  }

  /** A directory's entry is followed by the walk of that directory, under its path; one
      on the way from the root is not walked again. */
  lemma DirEntryWalked(img: Bytes, g: Geo, e: Entry, depth: nat, visited: set<nat>, path: Text, fuel: nat)
    requires e.isDir
    ensures var r := WalkEntry(img, g, e, depth, visited, path, fuel);
      var sub := WalkDir(img, g, e.first, depth, visited, path + [47] + e.name, fuel);
      && (r.Ok? <==> sub.Ok?)
      && (r.Ok? ==> r.value.lines[1..] == sub.value.lines && r.value.walks == sub.value.walks)
      && (e.first in visited ==> r.Ok? && |r.value.lines| == 1 && r.value.walks == [])
  {
    hide ReadDir, WalkEntries;
  }

  // ---- directories on the way ----

  /** No directory walked starts at a cluster of `visited`. */
  predicate Outside(walks: seq<Walk>, visited: set<nat>) {
    forall i :: 0 <= i < |walks| && walks[i].what.DirClaim? ==>
      walks[i].clusters != [] && walks[i].clusters[0] !in visited
  }

  /** On any image, no directory is walked again below itself. */
  lemma {:induction false} NoReentry(img: Bytes, g: Geo, c: nat, depth: nat, visited: set<nat>, path: Text, fuel: nat)
    ensures var r := WalkDir(img, g, c, depth, visited, path, fuel);
      r.Ok? ==>
        && Outside(r.value.walks, visited)
        && (c !in visited ==> r.value.walks != [] && Outside(r.value.walks[1..], visited + {c}))
    decreases fuel, 0
  {
    hide ReadDir, WalkEntries, IsRun;
    if c !in visited && fuel > 0 {
      var dir := ReadDir(img, g, c, visited + {c}, [], [], [], fuel);
      if dir.Ok? {
        ReadDirRuns(img, g, c, visited + {c}, [], [], [], fuel);
        assert dir.value.0[0..] == dir.value.0;
        RunStarts(img, g, visited + {c}, c, dir.value.0);
        NoReentryEntries(img, g, Shown(dir.value.1), depth + 1, visited + {c}, path, fuel - 1);
      }
    }
  }

  lemma RunStarts(img: Bytes, g: Geo, visited: set<nat>, c: nat, run: seq<nat>)
    requires IsRun(img, g, visited, c, run)
    ensures run != [] && run[0] == c
  {}

  lemma {:induction false} NoReentryEntries(img: Bytes, g: Geo, es: seq<Entry>, depth: nat, visited: set<nat>,
                                            path: Text, fuel: nat)
    ensures var r := WalkEntries(img, g, es, depth, visited, path, fuel); r.Ok? ==> Outside(r.value.walks, visited)
    decreases fuel, |es| + 2
  {
    hide WalkDir, WalkChain;
    if es != [] {
      NoReentryEntries(img, g, es[1..], depth, visited, path, fuel);
      if es[0].isDir {
        NoReentry(img, g, es[0].first, depth, visited, Below(path, es[0].name), fuel);
      }
    }
  }

  /** A directory whose chain leads back to where it starts is read once. */
  lemma BackToStart(img: Bytes, g: Geo, c: nat, depth: nat, path: Text, fuel: nat)
    requires fuel >= 1 && NextClus(img, g, c) == Ok(c) && !EndMark(ReadClus(img, g, c), 0, Bpc(g))
    ensures var scan := ScanCluster(ReadClus(img, g, c), 0, Bpc(g), [], []);
      && (WalkDir(img, g, c, depth, {}, path, fuel).Ok? ==>
            scan.Ok? && WalkDir(img, g, c, depth, {}, path, fuel).value.walks[0] == Walk([c], DirClaim(path)))
      && (scan.Ok? ==> ReadDir(img, g, c, {c}, [], [], [], fuel) == Ok(([c], scan.value.entries)))
  {
    hide ScanCluster, EndMark, WalkEntries, ReadClus, NextClus, Bpc;
    ScanDone(ReadClus(img, g, c), 0, Bpc(g), [], []);
    assert {} + {c} == {c} && [] + [c] == [c];
  }
}
