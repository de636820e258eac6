/** The reader on a partitioned disk: a volume behind a partition table reads as
    the bare volume does. */
module Partition {
  import opened ByteStrings
  import opened Results
  import opened ShortNames
  import opened LongNames
  import opened Geometry
  import opened Directory
  import opened Inspect

  /** Two volumes no walk can tell apart. */
  ghost predicate Alike(a: Bytes, g: Geo, b: Bytes, h: Geo) {
    && Bpc(g) == Bpc(h)
    && (forall c: nat :: ReadClus(a, g, c) == ReadClus(b, h, c))
    && (forall c: nat :: NextClus(a, g, c) == NextClus(b, h, c))
  }

  lemma {:induction false} ChainAlike(a: Bytes, g: Geo, b: Bytes, h: Geo, c: nat, seen: set<nat>)
    requires Alike(a, g, b, h)
    ensures WalkChain(a, g, c, seen) == WalkChain(b, h, c, seen)
    decreases (set x: nat | x < EOC_MIN && DataCluster(x)) - seen
  {
    if DataCluster(c) && c !in seen && NextClus(a, g, c).Ok? {
      ChainAlike(a, g, b, h, NextClus(a, g, c).value, seen + {c});
    }
  }

  lemma {:induction false} DirAlike(a: Bytes, g: Geo, b: Bytes, h: Geo, c: nat, visited: set<nat>, pending: seq<Bytes>,
                                    entries: seq<Entry>, chain: seq<nat>, fuel: nat)
    requires Alike(a, g, b, h) && Keyed(pending)
    ensures ReadDir(a, g, c, visited, pending, entries, chain, fuel)
            == ReadDir(b, h, c, visited, pending, entries, chain, fuel)
    decreases fuel
  {
    hide ScanCluster, ReadClus, NextClus, Bpc;
    if fuel > 0 {
      var scan := ScanCluster(ReadClus(a, g, c), 0, Bpc(g), pending, entries);
      if scan.Ok? && !scan.value.done && NextClus(a, g, c).Ok? {
        DirAlike(a, g, b, h, NextClus(a, g, c).value, visited, scan.value.pending, scan.value.entries, chain + [c],
                 fuel - 1);
      }
    }
  }

  lemma {:induction false} WalkAlike(a: Bytes, g: Geo, b: Bytes, h: Geo, c: nat, depth: nat, visited: set<nat>,
                                     path: Text, fuel: nat)
    requires Alike(a, g, b, h)
    ensures WalkDir(a, g, c, depth, visited, path, fuel) == WalkDir(b, h, c, depth, visited, path, fuel)
    decreases fuel, 0
  {
    hide ReadDir, WalkEntries, Alike;
    if c !in visited && fuel > 0 {
      DirAlike(a, g, b, h, c, visited + {c}, [], [], [], fuel);
      var dir := ReadDir(a, g, c, visited + {c}, [], [], [], fuel);
      if dir.Ok? {
        EntriesAlike(a, g, b, h, Shown(dir.value.1), depth + 1, visited + {c}, path, fuel - 1);
      }
    }
  }

  lemma {:induction false} EntriesAlike(a: Bytes, g: Geo, b: Bytes, h: Geo, es: seq<Entry>, depth: nat,
                                        visited: set<nat>, path: Text, fuel: nat)
    requires Alike(a, g, b, h)
    ensures WalkEntries(a, g, es, depth, visited, path, fuel) == WalkEntries(b, h, es, depth, visited, path, fuel)
    decreases fuel, |es| + 2
  {
    hide WalkDir, WalkChain, Alike;
    if es != [] {
      var e := es[0];
      if e.isDir {
        WalkAlike(a, g, b, h, e.first, depth, visited, Below(path, e.name), fuel);
      } else {
        ChainAlike(a, g, b, h, e.first, {});
      }
      EntriesAlike(a, g, b, h, es[1..], depth, visited, path, fuel);
    }
  }

  // ---- one volume, moved ----

  lemma SliceBehind(pre: Bytes, img: Bytes, lo: nat, hi: nat)
    ensures Slice(pre + img, |pre| + lo, |pre| + hi) == Slice(img, lo, hi)
  {
    var l, h := Min(lo, |img|), Min(hi, |img|);
    if l <= h {
      assert (pre + img)[|pre| + l..|pre| + h] == img[l..h];
    }
  }

  function Moved(g: Geo, d: nat): Geo { g.(bpbOff := g.bpbOff + d, dataStart := g.dataStart + d) }

  /** Every cluster number, those below 2 included, denotes bytes inside the volume. */
  predicate Roomy(g: Geo) { 2 * Bpc(g) <= g.dataStart }

  lemma ClusterBehind(pre: Bytes, img: Bytes, g: Geo, c: nat)
    requires Roomy(g)
    ensures ReadClus(pre + img, Moved(g, |pre|), c) == ReadClus(img, g, c)
  {
    hide Slice;
    assert Bpc(Moved(g, |pre|)) == Bpc(g);
    hide Bpc;
    var off := g.dataStart + (c - ROOT_CLUS) * Bpc(g);
    PlaceInside(g.dataStart, c, Bpc(g));
    SliceBehind(pre, img, off, off + Bpc(g));
  }

  lemma PlaceInside(start: nat, c: nat, size: nat)
    requires 2 * size <= start
    ensures 0 <= start + (c - ROOT_CLUS) * size
  {
    assert start + (c - ROOT_CLUS) * size == start - 2 * size + c * size;
  }

  lemma AlikeBehind(pre: Bytes, img: Bytes, g: Geo)
    requires Roomy(g)
    ensures Alike(img, g, pre + img, Moved(g, |pre|))
  {
    hide ReadClus;
    forall c: nat
      ensures ReadClus(img, g, c) == ReadClus(pre + img, Moved(g, |pre|), c)
    {
      ClusterBehind(pre, img, g, c);
    }
  }

  /** Which images are taken for partitioned, and where: a signature, a first entry that
      is active or not but nothing else, and of some type. */
  lemma PartitionIs(img: Bytes)
    ensures PartitionStart(img)
            == if |img| >= 512 && img[510] == 0x55 && img[511] == 0xAA
                  && (img[446] == 0 || img[446] == 0x80) && img[450] != 0
               then U32(img, 454) else 0
  {
    if |img| >= 512 {
      assert Slice(img, 510, 512) == [img[510], img[511]];
    }
  }

  /** What is taken from a boot sector, and which ones are refused. */
  lemma BpbIs(img: Bytes, off: nat)
    ensures var r := ReadBpb(img, off);
      && (r.Ok? <==> off + 48 <= |img| && U16(img, off + 11) == 512)
      && (!r.Ok? ==> r == Raised)
      && (r.Ok? ==>
            && var g := r.value;
            && g.spc == img[off + 13] && g.rsvd == U16(img, off + 14) && g.nfat == img[off + 16]
            && g.tot == (if U16(img, off + 19) != 0 then U16(img, off + 19) else U32(img, off + 32))
            && g.fatSec == (if U16(img, off + 22) != 0 then U16(img, off + 22) else U32(img, off + 36))
            && g.root == U32(img, off + 44) && g.bpbOff == off
            && g.dataStart == off + 512 * (g.rsvd + g.nfat * g.fatSec))
  {}

  /** The bytes of a cluster, as far as the image has them. */
  lemma ClusterIs(img: Bytes, g: Geo, c: nat)
    requires c >= 2
    ensures Bpc(g) == 512 * g.spc
    ensures var r, size := ReadClus(img, g, c), Bpc(g);
      var at := g.dataStart + (c - 2) * size;
      && |r| == Max(0, Min(size, |img| - at))
      && forall k :: 0 <= k < |r| ==> r[k] == img[at + k]
  {
    hide Slice;
    assert Bpc(g) == 512 * g.spc;
    hide Bpc;
    SliceIs(img, g.dataStart + (c - 2) * Bpc(g), Bpc(g));
  }

  lemma SliceIs(b: Bytes, at: nat, size: nat)
    ensures var r := Slice(b, at, at + size);
      |r| == Max(0, Min(size, |b| - at)) && forall k :: 0 <= k < |r| ==> r[k] == b[at + k]
  {}

  /** A partition table whose first entry starts right behind it. */
  predicate IsTable(mbr: Bytes) {
    && |mbr| > 0 && |mbr| % SECTOR == 0 && mbr[510] == 0x55 && mbr[511] == 0xAA
    && mbr[446] in {0x00, 0x80} && mbr[450] != 0 && U32(mbr, 454) == |mbr| / SECTOR
  }

  lemma TableFound(mbr: Bytes, img: Bytes)
    requires IsTable(mbr)
    ensures PartitionStart(mbr + img) * SECTOR == |mbr|
  {
    var disk := mbr + img;
    assert Slice(disk, 510, 512) == [disk[510], disk[511]];
  }

  lemma BpbBehind(pre: Bytes, img: Bytes)
    ensures ReadBpb(pre + img, |pre|)
            == var r := ReadBpb(img, 0); if r.Ok? then Ok(Moved(r.value, |pre|)) else r
  {}

  /** A volume behind a partition table gives the same report as the bare volume. */
  lemma PartitionReads(mbr: Bytes, img: Bytes, fuel: nat)
    requires IsTable(mbr) && PartitionStart(img) == 0
    requires ReadBpb(img, 0).Ok? ==> Roomy(ReadBpb(img, 0).value)
    ensures InspectReport(mbr + img, fuel) == InspectReport(img, fuel)
  {
    hide WalkDir, PartitionStart, ReadBpb, IsTable, Roomy, Alike;
    TableFound(mbr, img);
    BpbBehind(mbr, img);
    if ReadBpb(img, 0).Ok? {
      var g := ReadBpb(img, 0).value;
      AlikeBehind(mbr, img, g);
      WalkAlike(img, g, mbr + img, Moved(g, |mbr|), g.root, 0, {}, [], fuel);
    }
  }
}
