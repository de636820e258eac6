/** The reader undoes the writer: on an image that carries a laid-out tree, each
    directory chain, entry and file reads back as it was written. */
module ReadBack {
  import opened ByteStrings
  import opened Results
  import opened ShortNames
  import opened LongNames
  import opened Geometry
  import opened Directory
  import opened Layout
  import opened Splices
  import opened Schedule
  import opened FormatImage
  import opened Inspect

  function TheGeo(tot: nat, fatSec: nat): Geo {
    Geo(SEC_PER_CLUS, RSVD_SEC_CNT, NUM_FATS, tot, fatSec, ROOT_CLUS, 0, Base(fatSec))
  }

  // ---- clusters and chains ----

  lemma NextReads(img: Bytes, tot: nat, fatSec: nat, fat: map<nat, nat>, c: nat)
    requires HoldsFat(img, FAT_START, fat) && c in fat
    ensures NextClus(img, TheGeo(tot, fatSec), c) == Ok(fat[c])
  {}

  lemma ClusterReads(img: Bytes, tot: nat, fatSec: nat, c: nat)
    requires c >= ROOT_CLUS
    ensures ReadClus(img, TheGeo(tot, fatSec), c) == Slice(img, Off(fatSec, c), Off(fatSec, c) + CLUSTER)
  {
    hide Slice;
    var g := TheGeo(tot, fatSec);
    assert Bpc(g) == CLUSTER && g.dataStart == Base(fatSec);
    hide Bpc, Base, TheGeo;
    assert g.dataStart + (c - ROOT_CLUS) * Bpc(g) == Off(fatSec, c);
  }

  /** Following the FAT from inside a chain visits the rest of the chain. */
  lemma {:induction false} ChainReads(img: Bytes, tot: nat, fatSec: nat, fat: map<nat, nat>, first: nat, n: nat,
                                      i: nat, seen: set<nat>)
    requires HoldsFat(img, FAT_START, fat) && ChainIn(fat, first, n) && i < n
    requires ROOT_CLUS <= first && first + n <= EOC_MIN && forall s :: s in seen ==> s < first + i
    ensures WalkChain(img, TheGeo(tot, fatSec), first + i, seen) == Ok(Chain(first + i, n - i))
    decreases n - i
  {
    hide HoldsFat, NextClus;
    var c := first + i;
    assert c in fat;
    NextReads(img, tot, fatSec, fat, c);
    if i + 1 < n {
      ChainReads(img, tot, fatSec, fat, first, n, i + 1, seen + {c});
      assert Chain(c, n - i) == [c] + Chain(c + 1, n - i - 1);
    } else {
      assert WalkChain(img, TheGeo(tot, fatSec), EOC, seen + {c}) == Ok([]);
      assert Chain(c, 1) == [c] + [];
    }
  }

  // ---- the rest of a written cluster ----

  /** The clusters of `w`, as far as they are present, hold its bytes and then zeros. */
  predicate ZeroPadded(img: Bytes, w: Write) {
    var here := Slice(img, w.off, w.off + CLUSTER * ClustersFor(|w.bytes|));
    |w.bytes| <= |here| && here == w.bytes + Zeros(|here| - |w.bytes|)
  }

  /** In an image that carries a tree, the clusters of every directory and every file
      are its bytes padded with zeros. */
  lemma RegionPadded(img: Bytes, root: Item, tot: nat, fatSec: nat, w: Write)
    requires root.DirItem? && Linked(root, 0) && Tiled(root, ROOT_CLUS) && Represents(img, root, tot, fatSec)
    requires w in AllWrites(root, fatSec)
    ensures ZeroPadded(img, w)
  {
    hide Linked, Tiled, AllWrites, Formatted, Touched, FatOf, Base;
    var end := Min(w.off + CLUSTER * ClustersFor(|w.bytes|), |img|);
    forall k: nat | w.off + |w.bytes| <= k < end
      ensures img[k] == 0
    {
      TailUntouched(root, fatSec, w, k);
      RegionStarts(root, fatSec, w);
    }
    assert Holds(img, w);
    hide Represents, ClustersFor, Holds;
    BytesThenZeros(img, w, CLUSTER * ClustersFor(|w.bytes|));
  }

  lemma BytesThenZeros(img: Bytes, w: Write, room: nat)
    requires Holds(img, w) && |w.bytes| <= room
    requires forall k: nat :: w.off + |w.bytes| <= k < Min(w.off + room, |img|) ==> img[k] == 0
    ensures var here := Slice(img, w.off, w.off + room);
      |w.bytes| <= |here| && here == w.bytes + Zeros(|here| - |w.bytes|)
  {
    var m, end := w.off + |w.bytes|, Min(w.off + room, |img|);
    SliceCut(img, w.off, w.off + room);
    assert img[w.off..end] == img[w.off..m] + img[m..end];
    assert img[m..end] == Zeros(end - m);
  }

  lemma SliceCut(img: Bytes, lo: nat, hi: nat)
    requires lo <= |img| && lo <= hi
    ensures Slice(img, lo, hi) == img[lo..Min(hi, |img|)]
  {}

  lemma RegionStarts(root: Item, fatSec: nat, w: Write)
    requires root.DirItem? && Linked(root, 0) && Tiled(root, ROOT_CLUS) && w in AllWrites(root, fatSec)
    ensures Base(fatSec) <= w.off
  {
    AllWritesOrderly(root, fatSec);
  }

  /** So the reader fetches every directory cluster as its part of the entries, zeros
      behind the end mark included. */
  lemma DirClusterPadded(img: Bytes, tot: nat, fatSec: nat, bytes: Bytes, first: nat, i: nat)
    requires ROOT_CLUS <= first && CLUSTER * i < |bytes| && ZeroPadded(img, ClusterWrite(bytes, Off(fatSec, first), i))
    ensures var data := ReadClus(img, TheGeo(tot, fatSec), first + i);
      var part := Slice(bytes, CLUSTER * i, CLUSTER * (i + 1));
      |part| <= |data| && data == part + Zeros(|data| - |part|)
  {
    hide ReadClus, Slice;
    ClusterReads(img, tot, fatSec, first + i);
    PartOfDirectory(bytes, i);
    assert Off(fatSec, first) + i * CLUSTER == Off(fatSec, first + i);
  }

  // ---- one directory ----

  /** The bytes of cluster `i`, as the reader fetches them, begin with what was written. */
  lemma ClusterBytes(img: Bytes, tot: nat, fatSec: nat, bytes: Bytes, first: nat, i: nat)
    requires first >= ROOT_CLUS && CLUSTER * i < |bytes|
    requires Holds(img, ClusterWrite(bytes, Off(fatSec, first), i))
    ensures var data := ReadClus(img, TheGeo(tot, fatSec), first + i);
      var w := bytes[CLUSTER * i..Min(CLUSTER * (i + 1), |bytes|)];
      |w| <= |data| && data[..|w|] == w
  {
    hide ReadClus;
    ClusterReads(img, tot, fatSec, first + i);
    var at, m := Off(fatSec, first + i), Min(CLUSTER, |bytes| - CLUSTER * i);
    assert Off(fatSec, first) + i * CLUSTER == at;
    SlicePrefix(img, at, at + CLUSTER, m);
  }

  /** Cluster `i` of the bytes of a directory: records `128 * i` on, and the end
      mark behind the last of them. */
  lemma RecordsInBytes(recs: seq<Bytes>, i: nat, data: Bytes)
    requires AllLong(recs) && 128 * i <= |recs| && |Flatten(recs)| == 32 * |recs|
    requires var bytes := Flatten(recs) + [0];
      var w := bytes[CLUSTER * i..Min(CLUSTER * (i + 1), |bytes|)]; |w| <= |data| && data[..|w|] == w
    ensures var m := Min(128, |recs| - 128 * i);
      && 32 * m <= |data| && (forall k :: 0 <= k < m ==> data[32 * k..32 * k + 32] == recs[128 * i + k])
      && (m < 128 ==> 32 * m < |data| && data[32 * m] == 0)
  {
    hide Flatten;
    ClusterRange(i);
    RecordsFrom(recs, 128 * i, data);
  }

  lemma RecordsFrom(recs: seq<Bytes>, j: nat, data: Bytes)
    requires AllLong(recs) && j <= |recs| && |Flatten(recs)| == 32 * |recs|
    requires var bytes := Flatten(recs) + [0];
      var w := bytes[32 * j..Min(32 * (j + 128), |bytes|)]; |w| <= |data| && data[..|w|] == w
    ensures var m := Min(128, |recs| - j);
      && 32 * m <= |data| && (forall k :: 0 <= k < m ==> data[32 * k..32 * k + 32] == recs[j + k])
      && (m < 128 ==> 32 * m < |data| && data[32 * m] == 0)
  {
    hide Flatten;
    var bytes, m := Flatten(recs) + [0], Min(128, |recs| - j);
    var at, end := 32 * j, Min(32 * (j + 128), |bytes|);
    forall k | 0 <= k < m
      ensures 32 * k + 32 <= |data| && data[32 * k..32 * k + 32] == recs[j + k]
    {
      RecordInBytes(recs, j + k);
      SubSlice(data, bytes, at, end, 32 * k, 32 * k + 32);
    }
    if m < 128 {
      SubSlice(data, bytes, at, end, 32 * m, 32 * m + 1);
      OneByte(data, 32 * m);
      OneByte(bytes, 32 * |recs|);
    }
  }

  lemma ClusterRange(i: nat)
    ensures CLUSTER * i == 32 * (128 * i) && CLUSTER * (i + 1) == 32 * (128 * i + 128)
  {}

  lemma RecordInBytes(recs: seq<Bytes>, k: nat)
    requires AllLong(recs) && k < |recs|
    ensures |Flatten(recs)| == 32 * |recs| && (Flatten(recs) + [0])[32 * k..32 * k + 32] == recs[k]
  {
    hide Flatten;
    FlattenAt(recs, k);
    var all := Flatten(recs);
    assert (all + [0])[32 * k..32 * k + 32] == all[32 * k..32 * k + 32];
  }

  lemma OneByte(b: Bytes, k: nat)
    requires k < |b|
    ensures b[k..k + 1] == [b[k]]
  {}

  /** Scanning such a cluster feeds its records, and is done exactly in the last one. */
  lemma {:induction false} ScanOne(data: Bytes, recs: seq<Bytes>, pending: seq<Bytes>, entries: seq<Entry>)
    requires AllFull(recs) && Keyed(pending) && |recs| <= 128 && 32 * |recs| <= |data|
    requires forall k :: 0 <= k < |recs| ==> data[32 * k..32 * k + 32] == recs[k]
    requires |recs| < 128 ==> 32 * |recs| < |data| && data[32 * |recs|] == 0
    ensures var r := Feed(recs, pending, entries);
      ScanCluster(data, 0, CLUSTER, pending, entries) ==
        if r.Ok? then Ok(Scan(|recs| < 128, r.value.0, r.value.1)) else r.PropagateFailure()
  {
    hide Feed, ParseShort;
    ScanRecords(data, recs, 0, CLUSTER, pending, entries);
    assert recs[0..] == recs;
    if |recs| < 128 {
      var e := Slice(data, 32 * |recs|, 32 * |recs| + 32);
      assert e[0] == data[32 * |recs|];
    }
  }

  /** Scanning cluster `i` of a directory feeds its records after those of the earlier
      clusters, and is done exactly in the last one. */
  lemma {:induction false} ScanHere(img: Bytes, tot: nat, fatSec: nat, recs: seq<Bytes>, first: nat, i: nat,
                                    pending: seq<Bytes>, entries: seq<Entry>)
    requires AllFull(recs) && AllLong(recs) && 128 * i <= |recs| && Keyed(pending) && ROOT_CLUS <= first
    requires Holds(img, ClusterWrite(Flatten(recs) + [0], Off(fatSec, first), i))
    requires Feed(recs[..128 * i], [], []) == Ok((pending, entries))
    ensures var end := Min(128 * (i + 1), |recs|);
      var fed := Feed(recs[..end], [], []);
      ScanCluster(ReadClus(img, TheGeo(tot, fatSec), first + i), 0, CLUSTER, pending, entries) ==
        if fed.Ok? then Ok(Scan(end < 128 * (i + 1), fed.value.0, fed.value.1)) else fed.PropagateFailure()
  {
    hide Feed, ScanCluster, ReadClus, Holds, ClusterWrite, Full, Flatten, Off;
    var data, end := ReadClus(img, TheGeo(tot, fatSec), first + i), Min(128 * (i + 1), |recs|);
    var here := recs[128 * i..end];
    FlattenLength(recs);
    ClusterBytes(img, tot, fatSec, Flatten(recs) + [0], first, i);
    RecordsInBytes(recs, i, data);
    ScanOne(data, here, pending, entries);
    assert recs[..128 * i] + here == recs[..end];
    FeedAppend(recs[..128 * i], here, [], []);
  }

  /** Reading a directory from its cluster `i` on, with the records of the earlier
      clusters already fed. */
  lemma {:induction false} DirReadsFrom(img: Bytes, tot: nat, fatSec: nat, fat: map<nat, nat>, recs: seq<Bytes>,
                                        first: nat, n: nat, i: nat, visited: set<nat>, fuel: nat,
                                        pending: seq<Bytes>, entries: seq<Entry>, all: seq<Entry>)
    requires AllFull(recs) && AllLong(recs) && n == |recs| / 128 + 1 && i < n && n - i <= fuel && Keyed(pending)
    requires forall k :: 0 <= k < n ==> Holds(img, ClusterWrite(Flatten(recs) + [0], Off(fatSec, first), k))
    requires HoldsFat(img, FAT_START, fat) && ChainIn(fat, first, n)
    requires ROOT_CLUS <= first && first + n <= EOC_MIN && forall v :: v in visited ==> v <= first
    requires Feed(recs[..128 * i], [], []) == Ok((pending, entries)) && Feed(recs, [], []) == Ok(([], all))
    ensures ReadDir(img, TheGeo(tot, fatSec), first + i, visited, pending, entries, Chain(first, i), fuel)
            == Ok((Chain(first, n), all))
    decreases n - i
  {
    hide Feed, ScanCluster, HoldsFat, NextClus, ReadClus, Holds, ClusterWrite, Full, Flatten;
    var c := first + i;
    ScanHere(img, tot, fatSec, recs, first, i, pending, entries);
    assert Chain(first, i + 1) == Chain(first, i) + [c];
    if i + 1 == n {
      assert recs[..|recs|] == recs;
    } else {
      var fed := Feed(recs[..128 * (i + 1)], [], []);
      assert recs == recs[..128 * (i + 1)] + recs[128 * (i + 1)..];
      FeedAppend(recs[..128 * (i + 1)], recs[128 * (i + 1)..], [], []);
      assert c in fat;
      NextReads(img, tot, fatSec, fat, c);
      DirReadsFrom(img, tot, fatSec, fat, recs, first, n, i + 1, visited, fuel - 1, fed.value.0, fed.value.1, all);
    }
  }

  // ---- what the reader should say about a laid-out tree ----

  function ShortsOf(t: Item, parent: nat): (r: seq<Bytes>)
    requires t.DirItem? && Linked(t, parent)
    ensures |r| == |t.children| && forall i :: 0 <= i < |r| ==> |r[i]| == 11
  {
    AssignShorts(NamesOf(ItemStubs(t.children)), {}).value
  }

  /** The line of one child: indentation, kind, the 8.3 form and the name, the size, 0 for
      a directory, and the first cluster, 0 for an empty file. */
  function ItemLine(t: Item, short: ShortField, depth: nat): (l: Line)
    ensures l.Listed? && l.depth == depth && l.name == t.name && l.shown == ShortToName(short)
    ensures match t
            case DirItem(_, _, first, _, _) => l.isDir && l.size == 0 && l.first == first
            case FileItem(_, data, first) => !l.isDir && l.size == |data| && l.first == if data == [] then 0 else first
  {
    if t.DirItem? then Listed(depth, true, ShortToName(short), t.name, 0, t.first)
    else Listed(depth, false, ShortToName(short), t.name, |t.data|, if t.data == [] then 0 else t.first)
  }

  /** The lines printed for a directory and everything below it. */
  function Listing(t: Item, parent: nat, depth: nat): seq<Line>
    requires t.DirItem? && Linked(t, parent)
    decreases t, 0
  {
    [Header(depth, |t.children|)] + ListingOf(t.children, ShortsOf(t, parent), t.first, depth + 1)
  }

  function ListingOf(ts: seq<Item>, shorts: seq<Bytes>, parent: nat, depth: nat): seq<Line>
    requires |ts| == |shorts| && forall i :: 0 <= i < |shorts| ==> |shorts[i]| == 11
    requires forall i :: 0 <= i < |ts| ==> Linked(ts[i], parent)
    decreases ts, 1
  {
    if ts == [] then []
    else
      [ItemLine(ts[0], shorts[0], depth)]
      + (if ts[0].DirItem? then Listing(ts[0], parent, depth) else [])
      + ListingOf(ts[1..], shorts[1..], parent, depth)
  }

  /** The clusters claimed, in the order of the walk. */
  function Walks(t: Item, path: Text): seq<Walk>
    decreases t, 0
  {
    match t
    case FileItem(_, data, first) =>
      if data == [] then [] else [Walk(Chain(first, ClustersFor(|data|)), FileClaim(path))]
    case DirItem(_, children, first, _, n) => [Walk(Chain(first, n), DirClaim(path))] + WalksOf(children, path)
  }

  function WalksOf(ts: seq<Item>, path: Text): seq<Walk>
    decreases ts, 1
  {
    if ts == [] then [] else Walks(ts[0], path + [47] + ts[0].name) + WalksOf(ts[1..], path)
  }

  /** Names the codec keeps and the listing does not take for dot entries. */
  predicate LegalEntry(name: Text) { LegalName(name) && name != DOT_NAME && name != DOTDOT_NAME }

  predicate LegalItem(t: Item)
    decreases t
  {
    t.DirItem? ==> forall i :: 0 <= i < |t.children| ==> LegalEntry(t.children[i].name) && LegalItem(t.children[i])
  }

  predicate LegalTree(t: Tree) {
    t.Dir? ==> forall i :: 0 <= i < |t.children| ==> LegalEntry(t.children[i].name) && LegalTree(t.children[i])
  }

  lemma {:induction false} LegalItems(t: Item)
    requires LegalTree(Bare(t))
    ensures LegalItem(t)
    decreases t
  {
    if t.DirItem? {
      forall i | 0 <= i < |t.children|
        ensures LegalEntry(t.children[i].name) && LegalItem(t.children[i])
      {
        BareAt(t.children, i);
        LegalItems(t.children[i]);
      }
    }
  }

  lemma {:induction false} BareAt(ts: seq<Item>, i: nat)
    requires i < |ts|
    ensures BareList(ts)[i] == Bare(ts[i])
    decreases |ts|
  {
    if i > 0 { BareAt(ts[1..], i - 1); }
  }

  // ---- one directory, its entries ----

  lemma {:induction false} ShownAll(es: seq<Entry>)
    requires forall i :: 0 <= i < |es| ==> IsShown(es[i])
    ensures Shown(es) == es
    decreases |es|
  {
    if es != [] { ShownAll(es[1..]); }
  }

  lemma ShownDropsDots(first: nat, parent: nat, es: seq<Entry>)
    requires forall i :: 0 <= i < |es| ==> IsShown(es[i])
    ensures Shown(DotEntries(first, parent) + es) == es
  {
    hide Shown, DotEntries;
    ShownAll(es);
    DotsHidden(first, parent);
    ShownAppend(DotEntries(first, parent), es);
    assert [] + es == es;
  }

  lemma DotsHidden(first: nat, parent: nat)
    ensures Shown(DotEntries(first, parent)) == []
  {
    var dots := DotEntries(first, parent);
    if parent != 0 {
      assert dots[1..][0] == dots[1] && dots[1..][1..] == [];
      assert Shown(dots[1..]) == [];
    }
  }

  lemma {:induction false} ShownAppend(xs: seq<Entry>, ys: seq<Entry>)
    ensures Shown(xs + ys) == Shown(xs) + Shown(ys)
    decreases |xs|
  {
    hide IsShown;
    if xs == [] {
      assert xs + ys == ys;
    } else {
      var head := if IsShown(xs[0]) then [xs[0]] else [];
      ShownAppend(xs[1..], ys);
      assert (xs + ys)[1..] == xs[1..] + ys && (xs + ys)[0] == xs[0];
      assert Shown(xs) == head + Shown(xs[1..]) && Shown(xs + ys) == head + Shown((xs + ys)[1..]);
      assert head + (Shown(xs[1..]) + Shown(ys)) == head + Shown(xs[1..]) + Shown(ys);
    }
  }

  lemma StubsReadable(t: Item, parent: nat, lo: nat)
    requires t.DirItem? && Linked(t, parent) && LegalItem(t) && Tiled(t, lo) && lo + Used(t) <= EOC_MIN
    ensures forall i :: 0 <= i < |t.children| ==> Readable(ItemStubs(t.children)[i])
  {
    hide DirClusters, AssignShorts, LegalName;
    forall i | 0 <= i < |t.children|
      ensures Readable(ItemStubs(t.children)[i])
    {
      FirstBounded(t.children, lo + t.clusters, i);
    }
  }

  lemma {:induction false} FirstBounded(ts: seq<Item>, lo: nat, i: nat)
    requires TiledList(ts, lo) && i < |ts|
    ensures ts[i].first <= lo + UsedBy(ts)
    decreases |ts|
  {
    if i > 0 { FirstBounded(ts[1..], lo + Used(ts[0]), i - 1); }
  }

  /** The records of a laid-out directory, and the entries they scan to. */
  lemma DirFeeds(t: Item, parent: nat, lo: nat) returns (recs: seq<Bytes>, all: seq<Entry>)
    requires t.DirItem? && Linked(t, parent) && Tiled(t, lo) && LegalItem(t)
    requires ROOT_CLUS <= lo && lo + Used(t) <= EOC_MIN && parent < lo
    ensures AllFull(recs) && AllLong(recs) && t.clusters == |recs| / 128 + 1 && t.first == lo
    ensures DirWritable(ItemStubs(t.children)) && ItemBytes(t) == Flatten(recs) + [0]
    ensures Feed(recs, [], []) == Ok(([], all))
    ensures Shown(all) == EntriesOf(ItemStubs(t.children), ShortsOf(t, parent))
  {
    hide Linked, Tiled, LegalItem, DirWritable, DirRecords, Readable, Feed, Flatten, DirSize, IsShown, DotEntries,
         ClustersFor;
    OpenDir(t, parent, lo);
    var cs := ItemStubs(t.children);
    recs := DirRecords(cs, t.first, t.parent);
    RecordClusters(|recs|);
    StubsReadable(t, parent, lo);
    FeedDirectory(cs, t.first, parent);
    DirBytesSize(cs, t.first, parent);
    var es := EntriesOf(cs, ShortsOf(t, parent));
    all := DotEntries(t.first, parent) + es;
    ChildrenShown(t, parent);
    ShownDropsDots(t.first, parent, es);
    FedIsKeyed(recs);
  }

  /** A directory whose own bytes the image holds, whatever becomes of others, reads back
      as its own chain and its children, in order. */
  lemma OwnDirReads(img: Bytes, tot: nat, fatSec: nat, fat: map<nat, nat>, t: Item, parent: nat, lo: nat,
                    visited: set<nat>, fuel: nat)
    requires t.DirItem? && Linked(t, parent) && Tiled(t, lo) && LegalItem(t)
    requires ROOT_CLUS <= lo && lo + Used(t) <= EOC_MIN && t.clusters <= fuel && parent < lo
    requires HoldsFat(img, FAT_START, fat) && ChainIn(fat, t.first, t.clusters)
    requires forall k :: 0 <= k < t.clusters ==> Holds(img, ClusterWrite(ItemBytes(t), Off(fatSec, t.first), k))
    requires forall v :: v in visited ==> v <= lo
    ensures var r := ReadDir(img, TheGeo(tot, fatSec), t.first, visited, [], [], [], fuel);
      && r.Ok? && r.value.0 == Chain(t.first, t.clusters)
      && Shown(r.value.1) == EntriesOf(ItemStubs(t.children), ShortsOf(t, parent))
  {
    hide Linked, Tiled, LegalItem, DirWritable, Feed, Flatten, ReadDir, Holds, HoldsFat, ChainIn, ClusterWrite, IsShown,
         Off, ItemBytes, EntriesOf, ShortsOf;
    var recs, all := DirFeeds(t, parent, lo);
    FedIsKeyed(recs);
    OwnFits(t, lo);
    assert recs[..0] == [];
    DirReadsFrom(img, tot, fatSec, fat, recs, t.first, t.clusters, 0, visited, fuel, [], [], all);
  }

  lemma OwnFits(t: Item, lo: nat)
    requires t.DirItem? && lo + Used(t) <= EOC_MIN
    ensures lo + t.clusters <= EOC_MIN
  {}

  // ---- a directory that the image does not reach ----

  /** Reading a directory whose cluster `j` lies past the end of the image fails there. */
  lemma {:induction false} DirLostFrom(img: Bytes, tot: nat, fatSec: nat, fat: map<nat, nat>, recs: seq<Bytes>,
                                       first: nat, n: nat, i: nat, j: nat, visited: set<nat>, fuel: nat,
                                       pending: seq<Bytes>, entries: seq<Entry>, chain: seq<nat>)
    requires AllFull(recs) && AllLong(recs) && n == |recs| / 128 + 1 && i <= j < n && n - i <= fuel && Keyed(pending)
    requires forall k :: 0 <= k < j ==> Holds(img, ClusterWrite(Flatten(recs) + [0], Off(fatSec, first), k))
    requires |img| <= Off(fatSec, first + j)
    requires HoldsFat(img, FAT_START, fat) && ChainIn(fat, first, n)
    requires ROOT_CLUS <= first && first + n <= EOC_MIN && forall v :: v in visited ==> v <= first
    requires Feed(recs[..128 * i], [], []) == Ok((pending, entries)) && Feed(recs, [], []).Ok?
    ensures ReadDir(img, TheGeo(tot, fatSec), first + i, visited, pending, entries, chain, fuel) == Raised
    decreases n - i
  {
    hide Feed, ScanCluster, HoldsFat, NextClus, ReadClus, Holds, ClusterWrite, Full, Flatten, Off;
    var c := first + i;
    if i == j {
      ClusterReads(img, tot, fatSec, c);
      NothingThere(img, Off(fatSec, c), pending, entries);
    } else {
      ScanHere(img, tot, fatSec, recs, first, i, pending, entries);
      var fed := Feed(recs[..128 * (i + 1)], [], []);
      assert recs == recs[..128 * (i + 1)] + recs[128 * (i + 1)..];
      FeedAppend(recs[..128 * (i + 1)], recs[128 * (i + 1)..], [], []);
      assert c in fat;
      NextReads(img, tot, fatSec, fat, c);
      DirLostFrom(img, tot, fatSec, fat, recs, first, n, i + 1, j, visited, fuel - 1, fed.value.0, fed.value.1,
                  chain + [c]);
    }
  }

  lemma NothingThere(img: Bytes, off: nat, pending: seq<Bytes>, entries: seq<Entry>)
    requires |img| <= off && Keyed(pending)
    ensures ScanCluster(Slice(img, off, off + CLUSTER), 0, CLUSTER, pending, entries) == Raised
  {}

  /** A directory reads back as its own chain and its children, in order. */
  lemma DirReads(img: Bytes, tot: nat, fatSec: nat, fat: map<nat, nat>, t: Item, parent: nat, lo: nat,
                 visited: set<nat>, fuel: nat)
    requires t.DirItem? && Linked(t, parent) && Tiled(t, lo) && LegalItem(t)
    requires ROOT_CLUS <= lo && lo + Used(t) <= EOC_MIN && t.clusters <= fuel && parent < lo
    requires HoldsFat(img, FAT_START, fat) && ChainIn(fat, t.first, t.clusters)
    requires forall w :: w in DirWrites(t, parent, fatSec) ==> Holds(img, w)
    requires forall v :: v in visited ==> v <= lo
    ensures var r := ReadDir(img, TheGeo(tot, fatSec), t.first, visited, [], [], [], fuel);
      && r.Ok? && r.value.0 == Chain(t.first, t.clusters)
      && Shown(r.value.1) == EntriesOf(ItemStubs(t.children), ShortsOf(t, parent))
  {
    hide Linked, Tiled, LegalItem, ReadDir, Holds, HoldsFat, ChainIn, ClusterWrite, Off, ItemBytes, DirWritable, Shown,
         EntriesOf, DirWrites;
    OpenDir(t, parent, lo);
    WritesHold(img, t, parent, fatSec);
    OwnDirReads(img, tot, fatSec, fat, t, parent, lo, visited, fuel);
  }

  lemma ChildrenShown(t: Item, parent: nat)
    requires t.DirItem? && Linked(t, parent) && LegalItem(t)
    ensures forall i :: 0 <= i < |t.children| ==> IsShown(EntriesOf(ItemStubs(t.children), ShortsOf(t, parent))[i])
  {
    hide Linked;
  }

  lemma FedIsKeyed(recs: seq<Bytes>)
    requires AllFull(recs)
    ensures Feed([], [], []) == Ok(([], []))
    ensures AllLong(recs)
  {}

  lemma WritesHold(img: Bytes, t: Item, parent: nat, fatSec: nat)
    requires t.DirItem? && Linked(t, parent)
    requires forall w :: w in DirWrites(t, parent, fatSec) ==> Holds(img, w)
    ensures forall k :: 0 <= k < t.clusters ==> Holds(img, ClusterWrite(ItemBytes(t), Off(fatSec, t.first), k))
    ensures forall w :: w in DirWritesList(t.children, t.first, fatSec) ==> Holds(img, w)
  {
    hide ItemBytes, Holds, ClusterWrite;
    var own := Slices(ItemBytes(t), Off(fatSec, t.first), t.clusters);
    forall k | 0 <= k < t.clusters
      ensures Holds(img, ClusterWrite(ItemBytes(t), Off(fatSec, t.first), k))
    {
      assert own[k] in own;
    }
  }
}
