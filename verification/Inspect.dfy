/** The image reader: an independent walk over the boot sector, the FAT and the
    directories of a finished image. The program may loop on damaged images, so
    every walk takes a bound on its steps; a larger bound never changes an answer. */
module Inspect {
  import opened ByteStrings
  import opened Results
  import opened ShortNames
  import opened LongNames
  import opened Geometry
  import opened Directory

  const EOC_MIN := 0x0FFF_FFF8
  const SLASH: CodePoint := 47

  // ---- clusters ----

  function Bpc(g: Geo): nat { SECTOR * g.spc }

  function ReadClus(img: Bytes, g: Geo, c: nat): Bytes {
    var off := g.dataStart + (c - ROOT_CLUS) * Bpc(g);
    Slice(img, off, off + Bpc(g))
  }

  function NextClus(img: Bytes, g: Geo, c: nat): Result<nat> {
    var at := g.bpbOff + g.rsvd * SECTOR + c * 4;
    if |img| < at + 4 then Raised else Ok(U32(img, at))
  }

  predicate DataCluster(c: nat) { ROOT_CLUS <= c < EOC_MIN }

  /** The clusters `walk_chain_mark` visits: it stops outside the data area and at
      the first cluster seen before. */
  function WalkChain(img: Bytes, g: Geo, c: nat, seen: set<nat>): Result<seq<nat>>
    decreases (set x: nat | x < EOC_MIN && DataCluster(x)) - seen
  {
    if DataCluster(c) && c !in seen then
      var next :- NextClus(img, g, c);
      var rest :- WalkChain(img, g, next, seen + {c});
      Ok([c] + rest)
    else Ok([])
  }

  /** What `chain` is when a walk from `c` past `seen` returns it: data clusters, none
      twice and none seen, each linked to the next, up to a link that leaves the data
      area or comes back. */
  ghost predicate IsChainWalk(img: Bytes, g: Geo, c: nat, seen: set<nat>, chain: seq<nat>) {
    && (chain == [] <==> !(2 <= c < 0x0FFF_FFF8) || c in seen)
    && (forall i :: 0 <= i < |chain| ==> 2 <= chain[i] < 0x0FFF_FFF8 && chain[i] !in seen)
    && (forall i, j :: 0 <= i < j < |chain| ==> chain[i] != chain[j])
    && (chain != [] ==>
          && chain[0] == c
          && (forall i :: 0 <= i < |chain| - 1 ==> IsLink(img, g, chain[i], chain[i + 1]))
          && exists stop: nat :: EndsAt(img, g, seen, chain, stop))
  }

  /** The last cluster's link leaves the data area, or leads to a cluster seen or in the
      chain. */
  ghost predicate EndsAt(img: Bytes, g: Geo, seen: set<nat>, chain: seq<nat>, stop: nat)
    requires chain != []
  {
    IsLink(img, g, chain[|chain| - 1], stop) && (!(2 <= stop < 0x0FFF_FFF8) || stop in seen || stop in chain)
  }

  /** The FAT's four bytes for `c`, low byte first, say `next`. */
  ghost predicate IsLink(img: Bytes, g: Geo, c: nat, next: nat) {
    var at := g.bpbOff + 512 * g.rsvd + 4 * c;
    && at + 4 <= |img|
    && next == img[at] + 0x100 * img[at + 1] as int + 0x1_0000 * img[at + 2] as int + 0x100_0000 * img[at + 3] as int
  }

  lemma LinkIs(img: Bytes, g: Geo, c: nat)
    ensures NextClus(img, g, c).Ok? <==> exists next: nat :: IsLink(img, g, c, next)
    ensures NextClus(img, g, c).Ok? ==> IsLink(img, g, c, NextClus(img, g, c).value)
  {
    if NextClus(img, g, c).Ok? { assert IsLink(img, g, c, NextClus(img, g, c).value); }
  }

  /** On any image, cyclic chains included, the walk ends, and what it returns is
      the chain up to its end or its first repetition. */
  lemma {:induction false} WalkChainSpec(img: Bytes, g: Geo, c: nat, seen: set<nat>)
    ensures var r := WalkChain(img, g, c, seen); !r.OutOfFuel? && (r.Ok? ==> IsChainWalk(img, g, c, seen, r.value))
    decreases (set x: nat | x < EOC_MIN && DataCluster(x)) - seen
  {
    if DataCluster(c) && c !in seen && NextClus(img, g, c).Ok? {
      var next := NextClus(img, g, c).value;
      WalkChainSpec(img, g, next, seen + {c});
      var rest := WalkChain(img, g, next, seen + {c});
      if rest.Ok? { ChainWalkCons(img, g, c, seen, next, rest.value); }
    }
  }

  lemma ChainWalkCons(img: Bytes, g: Geo, c: nat, seen: set<nat>, next: nat, rest: seq<nat>)
    requires DataCluster(c) && c !in seen && NextClus(img, g, c) == Ok(next)
    requires IsChainWalk(img, g, next, seen + {c}, rest)
    ensures IsChainWalk(img, g, c, seen, [c] + rest)
  {
    hide NextClus, IsLink;
    LinkIs(img, g, c);
    var chain := [c] + rest;
    assert forall i :: 0 < i < |chain| ==> chain[i] == rest[i - 1];
    if rest == [] {
      assert EndsAt(img, g, seen, chain, next);
    } else {
      var stop: nat :| EndsAt(img, g, seen + {c}, rest, stop);
      assert chain[|chain| - 1] == rest[|rest| - 1];
      assert EndsAt(img, g, seen, chain, stop);
    }
  }

  // ---- one directory ----

  /** The chain loop of `walk_dir`: the clusters read and the entries found. */
  function ReadDir(img: Bytes, g: Geo, c: nat, visited: set<nat>, pending: seq<Bytes>, entries: seq<Entry>,
                   chain: seq<nat>, fuel: nat): Result<(seq<nat>, seq<Entry>)>
    requires Keyed(pending)
    decreases fuel
  {
    if fuel == 0 then OutOfFuel
    else
      var scan :- ScanCluster(ReadClus(img, g, c), 0, Bpc(g), pending, entries);
      if scan.done then Ok((chain + [c], scan.entries))
      else
        var next :- NextClus(img, g, c);
        if next >= EOC_MIN || next in visited then Ok((chain + [c], scan.entries))
        else ReadDir(img, g, next, visited, scan.pending, scan.entries, chain + [c], fuel - 1)
  }

  predicate IsShown(e: Entry) { e.name != DOT_NAME && e.name != DOTDOT_NAME }

  function Shown(es: seq<Entry>): seq<Entry> {
    if es == [] then [] else (if IsShown(es[0]) then [es[0]] else []) + Shown(es[1..])
  }

  // ---- the whole tree ----

  /** Who uses a cluster. */
  datatype Claim = DirClaim(path: Text) | FileClaim(path: Text)

  datatype Line =
    | Header(depth: nat, count: nat)
    | Listed(depth: nat, isDir: bool, shown: Text, name: Text, size: nat, first: nat)

  /** A chain that was walked, and for whom. */
  datatype Walk = Walk(clusters: seq<nat>, what: Claim)

  /** What a walk prints, and the chains it walks in order. */
  datatype Report = Report(lines: seq<Line>, walks: seq<Walk>)

  function Tag(chain: seq<nat>, what: Claim): (r: seq<(nat, Claim)>)
    ensures |r| == |chain|
  {
    seq(|chain|, i requires 0 <= i < |chain| => (chain[i], what))
  }

  /** The clusters claimed by some walks, in order. */
  function Flat(walks: seq<Walk>): seq<(nat, Claim)> {
    if walks == [] then [] else Tag(walks[0].clusters, walks[0].what) + Flat(walks[1..])
  }

  lemma {:induction false} FlatAppend(xs: seq<Walk>, ys: seq<Walk>)
    ensures Flat(xs + ys) == Flat(xs) + Flat(ys)
    decreases |xs|
  {
    if xs == [] {
      assert xs + ys == ys;
    } else {
      assert (xs + ys)[1..] == xs[1..] + ys;
      FlatAppend(xs[1..], ys);
    }
  }

  lemma FlatOne(w: Walk)
    ensures Flat([w]) == Tag(w.clusters, w.what)
  {
    assert [w][1..] == [];
  }

  function LineOf(e: Entry, depth: nat): Line {
    Listed(depth, e.isDir, ShortToName(e.short), e.name, e.size, e.first)
  }

  function Below(path: Text, name: Text): Text { path + [SLASH] + name }

  /** `walk_dir` */
  function WalkDir(img: Bytes, g: Geo, c: nat, depth: nat, visited: set<nat>, path: Text, fuel: nat): Result<Report>
    decreases fuel, 0
  {
    if c in visited then Ok(Report([], []))
    else if fuel == 0 then OutOfFuel
    else
      var dir :- ReadDir(img, g, c, visited + {c}, [], [], [], fuel);
      var children := Shown(dir.1);
      var rest :- WalkEntries(img, g, children, depth + 1, visited + {c}, path, fuel - 1);
      Ok(Report([Header(depth, |children|)] + rest.lines, [Walk(dir.0, DirClaim(path))] + rest.walks))
  }

  function Join(a: Report, b: Report): Report { Report(a.lines + b.lines, a.walks + b.walks) }

  /** One entry of a directory: its line, then its subtree or its data chain. */
  function WalkEntry(img: Bytes, g: Geo, e: Entry, depth: nat, visited: set<nat>, path: Text, fuel: nat): Result<Report>
    decreases fuel, 1
  {
    var sub :-
      if e.isDir then WalkDir(img, g, e.first, depth, visited, Below(path, e.name), fuel)
      else WalkFile(img, g, e.first, Below(path, e.name));
    Ok(Report([LineOf(e, depth)] + sub.lines, sub.walks))
  }

  /** The loop over the entries of one directory. */
  function WalkEntries(img: Bytes, g: Geo, es: seq<Entry>, depth: nat, visited: set<nat>, path: Text, fuel: nat)
    : Result<Report>
    decreases fuel, |es| + 2
  {
    if es == [] then Ok(Report([], []))
    else
      var one :- WalkEntry(img, g, es[0], depth, visited, path, fuel);
      var rest :- WalkEntries(img, g, es[1..], depth, visited, path, fuel);
      Ok(Join(one, rest))
  }

  function WalkFile(img: Bytes, g: Geo, first: nat, path: Text): Result<Report> {
    if first >= ROOT_CLUS then
      var chain :- WalkChain(img, g, first, {});
      Ok(Report([], [Walk(chain, FileClaim(path))]))
    else Ok(Report([], []))
  }

  /** `inspect_image` */
  function InspectReport(img: Bytes, fuel: nat): Result<Report> {
    var g :- ReadBpb(img, PartitionStart(img) * SECTOR);
    WalkDir(img, g, g.root, 0, {}, [], fuel)
  }

  // ---- the bound is only a bound ----

  lemma {:induction false} ReadDirFuel(img: Bytes, g: Geo, c: nat, visited: set<nat>, pending: seq<Bytes>,
                                       entries: seq<Entry>, chain: seq<nat>, fuel: nat, more: nat)
    requires Keyed(pending) && fuel <= more
    requires !ReadDir(img, g, c, visited, pending, entries, chain, fuel).OutOfFuel?
    ensures ReadDir(img, g, c, visited, pending, entries, chain, more)
            == ReadDir(img, g, c, visited, pending, entries, chain, fuel)
    decreases fuel
  {
    hide ScanCluster, ReadClus;
    var scan := ScanCluster(ReadClus(img, g, c), 0, Bpc(g), pending, entries);
    if scan.Ok? && !scan.value.done && NextClus(img, g, c).Ok? {
      var next := NextClus(img, g, c).value;
      if next < EOC_MIN && next !in visited {
        ReadDirFuel(img, g, next, visited, scan.value.pending, scan.value.entries, chain + [c], fuel - 1, more - 1);
      }
    }
  }

  lemma {:induction false} WalkDirFuel(img: Bytes, g: Geo, c: nat, depth: nat, visited: set<nat>, path: Text,
                                       fuel: nat, more: nat)
    requires fuel <= more && !WalkDir(img, g, c, depth, visited, path, fuel).OutOfFuel?
    ensures WalkDir(img, g, c, depth, visited, path, more) == WalkDir(img, g, c, depth, visited, path, fuel)
    decreases fuel, 0
  {
    hide ReadDir;
    if c !in visited {
      ReadDirFuel(img, g, c, visited + {c}, [], [], [], fuel, more);
      var dir := ReadDir(img, g, c, visited + {c}, [], [], [], fuel);
      if dir.Ok? {
        WalkEntriesFuel(img, g, Shown(dir.value.1), depth + 1, visited + {c}, path, fuel - 1, more - 1);
      }
    }
  }

  lemma {:induction false} WalkEntriesFuel(img: Bytes, g: Geo, es: seq<Entry>, depth: nat, visited: set<nat>,
                                           path: Text, fuel: nat, more: nat)
    requires fuel <= more && !WalkEntries(img, g, es, depth, visited, path, fuel).OutOfFuel?
    ensures WalkEntries(img, g, es, depth, visited, path, more) == WalkEntries(img, g, es, depth, visited, path, fuel)
    decreases fuel, |es| + 2
  {
    hide WalkEntry;
    if es != [] {
      WalkEntryFuel(img, g, es[0], depth, visited, path, fuel, more);
      if WalkEntry(img, g, es[0], depth, visited, path, fuel).Ok? {
        WalkEntriesFuel(img, g, es[1..], depth, visited, path, fuel, more);
      }
    }
  }

  lemma {:induction false} WalkEntryFuel(img: Bytes, g: Geo, e: Entry, depth: nat, visited: set<nat>, path: Text,
                                         fuel: nat, more: nat)
    requires fuel <= more && !WalkEntry(img, g, e, depth, visited, path, fuel).OutOfFuel?
    ensures WalkEntry(img, g, e, depth, visited, path, more) == WalkEntry(img, g, e, depth, visited, path, fuel)
    decreases fuel, 1
  {
    hide WalkDir, WalkFile;
    if e.isDir {
      WalkDirFuel(img, g, e.first, depth, visited, Below(path, e.name), fuel, more);
    }
  }
}
