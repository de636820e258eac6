/** What the conflict list says about the chains walked: no chain visits a cluster
    twice, so every reported cluster lies on two different chains. */
module Chains {
  import opened ByteStrings
  import opened ShortNames
  import opened LongNames
  import opened Geometry
  import opened Directory
  import opened Inspect
  import opened Occupancy

  // ---- a directory chain never repeats ----

  /** Some record of the cluster, from `off` on, is an end mark. */
  predicate EndMark(data: Bytes, off: nat, bpc: nat)
    decreases bpc - off
  {
    off < bpc && var e := Slice(data, off, off + 32); e != [] && (e[0] == 0 || EndMark(data, off + 32, bpc))
  }

  /** Whether a scan is done depends on the cluster alone. */
  lemma {:induction false} ScanDone(data: Bytes, off: nat, bpc: nat, pending: seq<Bytes>, entries: seq<Entry>)
    requires Keyed(pending)
    ensures var r := ScanCluster(data, off, bpc, pending, entries); r.Ok? ==> r.value.done == EndMark(data, off, bpc)
    decreases bpc - off
  {
    hide ParseShort, Slice;
    if off < bpc {
      var e := Slice(data, off, off + 32);
      if e != [] && e[0] != 0 {
        if e[0] == 0xE5 {
          ScanDone(data, off + 32, bpc, [], entries);
        } else if |e| >= 12 && e[11] == ATTR_LFN {
          ScanDone(data, off + 32, bpc, pending + [e], entries);
        } else if |e| >= 12 && ParseShort(e, pending).Ok? {
          ScanDone(data, off + 32, bpc, [], entries + [ParseShort(e, pending).value]);
        }
      }
    }
  }

  /** Where the walk of a directory ends: an end mark, the end of the chain, or a
      directory on the way from the root. */
  predicate Stops(img: Bytes, g: Geo, visited: set<nat>, c: nat) {
    || EndMark(ReadClus(img, g, c), 0, Bpc(g))
    || (NextClus(img, g, c).Ok? && (NextClus(img, g, c).value >= 0x0FFF_FFF8 || NextClus(img, g, c).value in visited))
  }

  /** `run` leads from `c` along the links to the first cluster where the walk stops. */
  predicate IsRun(img: Bytes, g: Geo, visited: set<nat>, c: nat, run: seq<nat>)
    decreases |run|
  {
    && run != [] && run[0] == c
    && if |run| == 1 then Stops(img, g, visited, c)
       else !Stops(img, g, visited, c) && NextClus(img, g, c).Ok?
            && IsRun(img, g, visited, NextClus(img, g, c).value, run[1..])
  }

  lemma {:induction false} ReadDirRuns(img: Bytes, g: Geo, c: nat, visited: set<nat>, pending: seq<Bytes>,
                                       entries: seq<Entry>, chain: seq<nat>, fuel: nat)
    requires Keyed(pending)
    ensures var r := ReadDir(img, g, c, visited, pending, entries, chain, fuel);
      r.Ok? ==> chain <= r.value.0 && IsRun(img, g, visited, c, r.value.0[|chain|..])
    decreases fuel
  {
    hide ScanCluster, ReadClus, NextClus, EndMark, Bpc;
    if fuel > 0 {
      var scan := ScanCluster(ReadClus(img, g, c), 0, Bpc(g), pending, entries);
      ScanDone(ReadClus(img, g, c), 0, Bpc(g), pending, entries);
      var r := ReadDir(img, g, c, visited, pending, entries, chain, fuel);
      if r.Ok? {
        if Stops(img, g, visited, c) {
          assert r.value.0 == chain + [c];
          assert (chain + [c])[|chain|..] == [c];
        } else {
          var next := NextClus(img, g, c).value;
          ReadDirRuns(img, g, next, visited, scan.value.pending, scan.value.entries, chain + [c], fuel - 1);
          var run := r.value.0[|chain|..];
          assert run[0] == (chain + [c])[|chain|] && run[1..] == r.value.0[|chain + [c]|..];
        }
      }
    }
  }

  /** A cluster determines the run from it. */
  lemma {:induction false} RunUnique(img: Bytes, g: Geo, visited: set<nat>, c: nat, a: seq<nat>, b: seq<nat>)
    requires IsRun(img, g, visited, c, a) && IsRun(img, g, visited, c, b)
    ensures a == b
    decreases |a|
  {
    hide Stops, NextClus;
    if |a| > 1 {
      RunUnique(img, g, visited, NextClus(img, g, c).value, a[1..], b[1..]);
      assert a == [c] + a[1..] && b == [c] + b[1..];
    } else {
      assert a == [c] && b == [c];
    }
  }

  lemma {:induction false} RunSuffix(img: Bytes, g: Geo, visited: set<nat>, c: nat, run: seq<nat>, k: nat)
    requires IsRun(img, g, visited, c, run) && k < |run|
    ensures IsRun(img, g, visited, run[k], run[k..])
    decreases k
  {
    hide Stops, NextClus;
    if k == 0 {
      assert run[0..] == run;
    } else {
      assert run[1..][0] == NextClus(img, g, c).value && run[1..][k - 1] == run[k] && run[1..][k - 1..] == run[k..];
      RunSuffix(img, g, visited, NextClus(img, g, c).value, run[1..], k - 1);
    }
  }

  predicate Once(clusters: seq<nat>) { forall i, j :: 0 <= i < j < |clusters| ==> clusters[i] != clusters[j] }

  /** A repeated cluster would repeat the run from it, and the walk would not end. */
  lemma RunOnce(img: Bytes, g: Geo, visited: set<nat>, c: nat, run: seq<nat>)
    requires IsRun(img, g, visited, c, run)
    ensures Once(run)
  {
    hide IsRun;
    forall i, j | 0 <= i < j < |run|
      ensures run[i] != run[j]
    {
      RunSuffix(img, g, visited, c, run, i);
      RunSuffix(img, g, visited, c, run, j);
      if run[i] == run[j] {
        RunUnique(img, g, visited, run[i], run[i..], run[j..]);
      }
    }
  }

  // ---- nor does any other chain ----

  predicate AllOnce(walks: seq<Walk>) { forall i :: 0 <= i < |walks| ==> Once(walks[i].clusters) }

  lemma {:induction false} WalkDirOnce(img: Bytes, g: Geo, c: nat, depth: nat, visited: set<nat>, path: Text, fuel: nat)
    ensures var r := WalkDir(img, g, c, depth, visited, path, fuel); r.Ok? ==> AllOnce(r.value.walks)
    decreases fuel, 0
  {
    hide ReadDir, WalkEntries, IsRun, Once;
    if c !in visited && fuel > 0 {
      var dir := ReadDir(img, g, c, visited + {c}, [], [], [], fuel);
      if dir.Ok? {
        ReadDirRuns(img, g, c, visited + {c}, [], [], [], fuel);
        assert dir.value.0[0..] == dir.value.0;
        RunOnce(img, g, visited + {c}, c, dir.value.0);
        WalkEntriesOnce(img, g, Shown(dir.value.1), depth + 1, visited + {c}, path, fuel - 1);
      }
    }
  }

  lemma {:induction false} WalkEntryOnce(img: Bytes, g: Geo, e: Entry, depth: nat, visited: set<nat>, path: Text,
                                         fuel: nat)
    ensures var r := WalkEntry(img, g, e, depth, visited, path, fuel); r.Ok? ==> AllOnce(r.value.walks)
    decreases fuel, 1
  {
    hide WalkDir, WalkChain;
    if e.isDir {
      WalkDirOnce(img, g, e.first, depth, visited, Below(path, e.name), fuel);
    } else {
      WalkChainSpec(img, g, e.first, {});
    }
  }

  lemma {:induction false} WalkEntriesOnce(img: Bytes, g: Geo, es: seq<Entry>, depth: nat, visited: set<nat>,
                                           path: Text, fuel: nat)
    ensures var r := WalkEntries(img, g, es, depth, visited, path, fuel); r.Ok? ==> AllOnce(r.value.walks)
    decreases fuel, |es| + 2
  {
    hide WalkEntry, Once;
    if es != [] {
      WalkEntryOnce(img, g, es[0], depth, visited, path, fuel);
      WalkEntriesOnce(img, g, es[1..], depth, visited, path, fuel);
    }
  }

  // ---- counting ----

  function ClaimsOn(claims: seq<(nat, Claim)>, c: nat): nat {
    if claims == [] then 0 else (if claims[0].0 == c then 1 else 0) + ClaimsOn(claims[1..], c)
  }

  function ReportsOn(conflicts: seq<Conflict>, c: nat): nat {
    if conflicts == [] then 0 else (if conflicts[0].0 == c then 1 else 0) + ReportsOn(conflicts[1..], c)
  }

  /** How many walks pass through a cluster. */
  function Holders(walks: seq<Walk>, c: nat): nat {
    if walks == [] then 0 else (if c in walks[0].clusters then 1 else 0) + Holders(walks[1..], c)
  }

  lemma {:induction false} ClaimsOnAppend(xs: seq<(nat, Claim)>, ys: seq<(nat, Claim)>, c: nat)
    ensures ClaimsOn(xs + ys, c) == ClaimsOn(xs, c) + ClaimsOn(ys, c)
    decreases |xs|
  {
    if xs == [] {
      assert xs + ys == ys;
    } else {
      assert (xs + ys)[1..] == xs[1..] + ys;
      ClaimsOnAppend(xs[1..], ys, c);
    }
  }

  lemma {:induction false} ReportsOnSnoc(conflicts: seq<Conflict>, t: Conflict, c: nat)
    ensures ReportsOn(conflicts + [t], c) == ReportsOn(conflicts, c) + if t.0 == c then 1 else 0
    decreases |conflicts|
  {
    if conflicts == [] {
      assert (conflicts + [t])[1..] == [];
    } else {
      assert (conflicts + [t])[1..] == conflicts[1..] + [t];
      ReportsOnSnoc(conflicts[1..], t, c);
    }
  }

  /** Every claim on a cluster after the first is reported, once. */
  lemma {:induction false} MarkAllCounts(claims: seq<(nat, Claim)>, c: nat)
    ensures var o := MarkAll(NOTHING, claims);
      && ReportsOn(o.conflicts, c) == Max(0, ClaimsOn(claims, c) - 1)
      && (c in o.occup <==> ClaimsOn(claims, c) > 0)
    decreases |claims|
  {
    hide MarkAll;
    if claims == [] {
      NothingMarked();
    } else {
      var init := claims[..|claims| - 1];
      var (d, what) := claims[|claims| - 1];
      assert claims == init + [(d, what)];
      MarkAllCounts(init, c);
      MarkOneMore(NOTHING, init, d, what);
      ClaimsOnAppend(init, [(d, what)], c);
      assert [(d, what)][1..] == [];
      var o := MarkAll(NOTHING, init);
      if d in o.occup { ReportsOnSnoc(o.conflicts, (d, o.occup[d], what), c); }
    }
  }

  lemma NothingMarked()
    ensures MarkAll(NOTHING, []) == NOTHING
  {}

  lemma {:induction false} OnceCounts(clusters: seq<nat>, what: Claim, c: nat)
    requires Once(clusters)
    ensures ClaimsOn(Tag(clusters, what), c) == if c in clusters then 1 else 0
    decreases |clusters|
  {
    if clusters != [] {
      assert Tag(clusters, what)[1..] == Tag(clusters[1..], what);
      OnceCounts(clusters[1..], what, c);
      assert clusters == [clusters[0]] + clusters[1..];
      assert clusters[0] !in clusters[1..];
    }
  }

  lemma {:induction false} FlatCounts(walks: seq<Walk>, c: nat)
    requires AllOnce(walks)
    ensures ClaimsOn(Flat(walks), c) == Holders(walks, c)
    decreases |walks|
  {
    hide Once;
    if walks != [] {
      OnceCounts(walks[0].clusters, walks[0].what, c);
      FlatCounts(walks[1..], c);
      ClaimsOnAppend(Tag(walks[0].clusters, walks[0].what), Flat(walks[1..]), c);
    }
  }

  // ---- what the conflict list means ----

  ghost predicate Disjoint(walks: seq<Walk>) {
    forall i, j, c :: 0 <= i < j < |walks| && c in walks[i].clusters ==> c !in walks[j].clusters
  }

  lemma {:induction false} HeldIff(walks: seq<Walk>, c: nat)
    ensures Holders(walks, c) > 0 <==> exists i :: 0 <= i < |walks| && c in walks[i].clusters
    decreases |walks|
  {
    if walks != [] {
      HeldIff(walks[1..], c);
      assert forall i :: 0 < i < |walks| ==> walks[i] == walks[1..][i - 1];
      assert forall i :: 0 <= i < |walks| - 1 ==> walks[1..][i] == walks[i + 1];
    }
  }

  /** Two different walks share `c`. */
  ghost predicate Shared(walks: seq<Walk>, c: nat) {
    exists i, j :: 0 <= i < j < |walks| && c in walks[i].clusters && c in walks[j].clusters
  }

  lemma {:induction false} SharedIff(walks: seq<Walk>, c: nat)
    ensures Holders(walks, c) > 1 <==> Shared(walks, c)
    decreases |walks|
  {
    if walks != [] {
      var rest := walks[1..];
      SharedIff(rest, c);
      HeldIff(rest, c);
      assert forall i :: 0 < i < |walks| ==> walks[i] == rest[i - 1];
      if i, j :| 0 <= i < j < |rest| && c in rest[i].clusters && c in rest[j].clusters {
        assert c in walks[i + 1].clusters && c in walks[j + 1].clusters;
      }
      if i :| 0 <= i < |rest| && c in rest[i].clusters && c in walks[0].clusters {
        assert c in walks[i + 1].clusters;
      }
      if i, j :| 0 <= i < j < |walks| && c in walks[i].clusters && c in walks[j].clusters {
        assert c in rest[j - 1].clusters;
        assert i > 0 ==> c in rest[i - 1].clusters;
      }
    }
  }

  lemma {:induction false} NoReports(conflicts: seq<Conflict>)
    ensures conflicts == [] <==> forall c: nat :: ReportsOn(conflicts, c) == 0
  {
    if conflicts != [] {
      assert ReportsOn(conflicts, conflicts[0].0) > 0;
    }
  }

  /** The conflict list of any inspection that ends: a cluster is reported once for
      every walked chain through it but the first, so exactly the clusters that two
      different chains share are reported; and the list is empty exactly when the
      walked chains are pairwise disjoint. */
  lemma ConflictsAreSharedClusters(img: Bytes, fuel: nat)
    requires InspectReport(img, fuel).Ok?
    ensures var walks := InspectReport(img, fuel).value.walks;
      var conflicts := MarkAll(NOTHING, Flat(walks)).conflicts;
      && (forall c: nat :: ReportsOn(conflicts, c) == Max(0, Holders(walks, c) - 1))
      && (forall c: nat :: ReportsOn(conflicts, c) > 0 <==> Shared(walks, c))
      && (conflicts == [] <==> Disjoint(walks))
  {
    hide WalkDir, MarkAll, Flat, ReadBpb, PartitionStart, Holders, ReportsOn, AllOnce;
    var g := ReadBpb(img, PartitionStart(img) * SECTOR).value;
    WalkDirOnce(img, g, g.root, 0, {}, [], fuel);
    var walks := InspectReport(img, fuel).value.walks;
    var conflicts := MarkAll(NOTHING, Flat(walks)).conflicts;
    forall c: nat
      ensures ReportsOn(conflicts, c) == Max(0, Holders(walks, c) - 1)
      ensures ReportsOn(conflicts, c) > 0 <==> Shared(walks, c)
    {
      MarkAllCounts(Flat(walks), c);
      FlatCounts(walks, c);
      SharedIff(walks, c);
    }
    NoReports(conflicts);
    DisjointIff(walks);
  }

  lemma DisjointIff(walks: seq<Walk>)
    ensures Disjoint(walks) <==> forall c: nat :: !Shared(walks, c)
  {
    if i, j, c :| 0 <= i < j < |walks| && c in walks[i].clusters && c in walks[j].clusters {
      assert Shared(walks, c);
    }
  }
}
