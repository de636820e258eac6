/** The slice assignments that put a laid-out tree into an image: every directory
    in tree order, then every file in tree order. */
module Schedule {
  import opened ByteStrings
  import opened Geometry
  import opened Directory
  import opened Layout
  import opened Splices

  function Base(fatSec: nat): nat { DataBytes(RSVD_SEC_CNT, NUM_FATS, fatSec) }

  /** Byte offset of cluster `c`. */
  function Off(fatSec: nat, c: nat): nat { Base(fatSec) + c * CLUSTER - ROOT_CLUS * CLUSTER }

  /** The bytes of a directory, cut into `n` clusters from offset `off` on. */
  function Slices(bytes: Bytes, off: nat, n: nat): (r: seq<Write>)
    ensures |r| == n
    ensures forall i :: 0 <= i < n ==> r[i] == ClusterWrite(bytes, off, i)
  {
    seq(n, i requires 0 <= i < n => ClusterWrite(bytes, off, i))
  }

  function ClusterWrite(bytes: Bytes, off: nat, i: nat): Write {
    Write(off + i * CLUSTER, CLUSTER, Slice(bytes, i * CLUSTER, (i + 1) * CLUSTER))
  }

  function ItemBytes(t: Item): Bytes
    requires t.DirItem? && DirWritable(ItemStubs(t.children))
  {
    DirBytes(ItemStubs(t.children), t.first, t.parent)
  }

  function DirWrites(t: Item, parent: nat, fatSec: nat): seq<Write>
    requires Linked(t, parent)
    decreases t, 0
  {
    if t.FileItem? then []
    else Slices(ItemBytes(t), Off(fatSec, t.first), t.clusters) + DirWritesList(t.children, t.first, fatSec)
  }

  function DirWritesList(ts: seq<Item>, parent: nat, fatSec: nat): seq<Write>
    requires forall i :: 0 <= i < |ts| ==> Linked(ts[i], parent)
    decreases ts, 1
  {
    if ts == [] then [] else DirWrites(ts[0], parent, fatSec) + DirWritesList(ts[1..], parent, fatSec)
  }

  function FileWrites(t: Item, fatSec: nat): seq<Write>
    decreases t, 0
  {
    match t
    case FileItem(_, data, first) => if first != 0 then [Write(Off(fatSec, first), |data|, data)] else []
    case DirItem(_, children, _, _, _) => FileWritesList(children, fatSec)
  }

  function FileWritesList(ts: seq<Item>, fatSec: nat): seq<Write>
    decreases ts, 1
  {
    if ts == [] then [] else FileWrites(ts[0], fatSec) + FileWritesList(ts[1..], fatSec)
  }

  function AllWrites(root: Item, fatSec: nat): seq<Write>
    requires Linked(root, 0)
  {
    DirWrites(root, 0, fatSec) + FileWrites(root, fatSec)
  }

  // ---- the schedule is orderly ----

  /** Proper writes inside [a, b), in ascending order. */
  ghost predicate Ascending(ws: seq<Write>, a: nat, b: nat) {
    && (forall i :: 0 <= i < |ws| ==> Sane(ws[i]) && a <= ws[i].off && ws[i].off + ws[i].room <= b)
    && (forall i, j :: 0 <= i < j < |ws| ==> ws[i].off + ws[i].room <= ws[j].off)
  }

  ghost predicate Exact(ws: seq<Write>) { forall i :: 0 <= i < |ws| ==> |ws[i].bytes| == ws[i].room }

  ghost predicate Apart(ds: seq<Write>, fs: seq<Write>) {
    forall i, j :: 0 <= i < |ds| && 0 <= j < |fs| ==>
      ds[i].off + ds[i].room <= fs[j].off || fs[j].off + fs[j].room <= ds[i].off
  }

  ghost predicate Tidy(ds: seq<Write>, fs: seq<Write>, a: nat, b: nat) {
    Ascending(ds, a, b) && Ascending(fs, a, b) && Exact(fs) && Apart(ds, fs)
  }

  lemma TidyAppend(ds: seq<Write>, fs: seq<Write>, ds': seq<Write>, fs': seq<Write>, a: nat, m: nat, b: nat)
    requires Tidy(ds, fs, a, m) && Tidy(ds', fs', m, b) && a <= m <= b
    ensures Tidy(ds + ds', fs + fs', a, b)
  {
    AscendingAppend(ds, ds', a, m, b);
    AscendingAppend(fs, fs', a, m, b);
    hide Sane;
    forall i, j | 0 <= i < |ds + ds'| && 0 <= j < |fs + fs'|
      ensures var d, f := (ds + ds')[i], (fs + fs')[j]; d.off + d.room <= f.off || f.off + f.room <= d.off
    {
    }
  }

  lemma AscendingAppend(xs: seq<Write>, ys: seq<Write>, a: nat, m: nat, b: nat)
    requires Ascending(xs, a, m) && Ascending(ys, m, b) && a <= m <= b
    ensures Ascending(xs + ys, a, b)
  {}

  lemma SlicesAscend(bytes: Bytes, off: nat, n: nat)
    requires |bytes| > 0 && n == ClustersFor(|bytes|)
    ensures Ascending(Slices(bytes, off, n), off, off + n * CLUSTER)
  {
    hide ClusterWrite;
    var ws := Slices(bytes, off, n);
    forall i | 0 <= i < n
      ensures Sane(ws[i]) && off <= ws[i].off && ws[i].off + ws[i].room <= off + n * CLUSTER
    {
      SlicePlace(bytes, off, n, i);
      Scaled(i + 1, n);
    }
    forall i, j | 0 <= i < j < n
      ensures ws[i].off + ws[i].room <= ws[j].off
    {
      SlicePlace(bytes, off, n, i);
      SlicePlace(bytes, off, n, j);
      Scaled(i + 1, j);
    }
  }

  lemma SlicePlace(bytes: Bytes, off: nat, n: nat, i: nat)
    requires n == ClustersFor(|bytes|) && i < n
    ensures var w := ClusterWrite(bytes, off, i); Sane(w) && w.off == off + i * CLUSTER && w.room == CLUSTER
    ensures (i + 1) * CLUSTER == i * CLUSTER + CLUSTER
  {
    hide Slice;
    Scaled(i + 1, n);
    PartOfDirectory(bytes, i);
  }

  lemma Scaled(i: nat, j: nat)
    requires i <= j
    ensures i * CLUSTER <= j * CLUSTER
  {}

  lemma PartOfDirectory(bytes: Bytes, i: nat)
    requires CLUSTER * i < |bytes|
    ensures 1 <= |Slice(bytes, i * CLUSTER, (i + 1) * CLUSTER)| <= CLUSTER
  {}

  lemma OwnTidy(bytes: Bytes, off: nat, n: nat)
    requires |bytes| > 0 && n == ClustersFor(|bytes|)
    ensures Tidy(Slices(bytes, off, n), [], off, off + n * CLUSTER)
  {
    SlicesAscend(bytes, off, n);
  }

  lemma FileTidy(fs: seq<Write>, a: nat, b: nat)
    requires fs == [] || (|fs| == 1 && a == fs[0].off && 0 < |fs[0].bytes| == fs[0].room && a + fs[0].room <= b)
    ensures Tidy([], fs, a, b)
  {}

  lemma TidyOrderly(ds: seq<Write>, fs: seq<Write>, a: nat, b: nat)
    requires Tidy(ds, fs, a, b)
    ensures Orderly(ds + fs)
    ensures forall w :: w in ds + fs ==> a <= w.off && w.off + w.room <= b
  {
    hide Sane;
    forall i, j | 0 <= i < j < |ds + fs|
      ensures Follows((ds + fs)[i], (ds + fs)[j])
    {
    }
  }

  lemma OpenDir(t: Item, parent: nat, lo: nat)
    requires t.DirItem? && Linked(t, parent) && Tiled(t, lo)
    ensures t.parent == parent && DirWritable(ItemStubs(t.children))
    ensures t.first == lo && t.clusters >= 1 && TiledList(t.children, lo + t.clusters)
    ensures forall i :: 0 <= i < |t.children| ==> Linked(t.children[i], t.first)
    ensures t.clusters == ClustersFor(|ItemBytes(t)|) && |ItemBytes(t)| > 0
  {
    DirBytesSize(ItemStubs(t.children), t.first, t.parent);
    hide DirSize, DirBytes;
  }

  /** Cluster `c` lies behind 32 reserved sectors, two FATs and the clusters before it,
      eight sectors each, the first of them cluster 2. */
  lemma OffIs(fatSec: nat, c: nat)
    requires c >= 2
    ensures Off(fatSec, c) == 512 * (32 + 2 * fatSec + 8 * (c - 2))
  {}

  lemma OffPlus(fatSec: nat, first: nat, i: nat)
    requires ROOT_CLUS <= first
    ensures Off(fatSec, first + i) == Off(fatSec, first) + CLUSTER * i
  {}

  /** A tiled item writes inside its own clusters only. */
  lemma {:induction false} WritesOrdered(t: Item, parent: nat, lo: nat, fatSec: nat)
    requires Linked(t, parent) && Tiled(t, lo) && lo >= ROOT_CLUS
    ensures var ds, fs := DirWrites(t, parent, fatSec), FileWrites(t, fatSec);
      var a, b := Off(fatSec, lo), Off(fatSec, lo + Used(t));
      Tidy(ds, fs, a, b)
    decreases t, 0
  {
    hide Tidy, DirWritable, DirClusters, DirBytes, Off, ClustersFor;
    if t.DirItem? {
      OpenDir(t, parent, lo);
      hide Linked, Tiled, ItemBytes;
      var mid := lo + t.clusters;
      OffPlus(fatSec, lo, t.clusters);
      OffPlus(fatSec, mid, UsedBy(t.children));
      OwnTidy(ItemBytes(t), Off(fatSec, lo), t.clusters);
      WritesOrderedList(t.children, t.first, mid, fatSec);
      TidyAppend(Slices(ItemBytes(t), Off(fatSec, lo), t.clusters), [],
                 DirWritesList(t.children, t.first, fatSec), FileWritesList(t.children, fatSec),
                 Off(fatSec, lo), Off(fatSec, mid), Off(fatSec, lo + Used(t)));
      assert [] + FileWritesList(t.children, fatSec) == FileWritesList(t.children, fatSec);
    } else {
      OneFileTidy(t, lo, fatSec);
    }
  }

  lemma OneFileTidy(t: Item, lo: nat, fatSec: nat)
    requires t.FileItem? && Tiled(t, lo) && lo >= ROOT_CLUS
    ensures Tidy([], FileWrites(t, fatSec), Off(fatSec, lo), Off(fatSec, lo + Used(t)))
  {
    hide Tidy, Off, ClustersFor;
    OffPlus(fatSec, lo, Used(t));
    FileTidy(FileWrites(t, fatSec), Off(fatSec, lo), Off(fatSec, lo + Used(t)));
  }

  /** A directory's chain has just enough clusters for its bytes. */
  lemma {:induction false} ChainLength(t: Item, parent: nat)
    requires t.DirItem? && Linked(t, parent)
    ensures t.clusters == ClustersFor(|ItemBytes(t)|)
  {
    DirBytesSize(ItemStubs(t.children), t.first, t.parent);
    hide DirSize, DirBytes;
  }

  lemma {:induction false} WritesOrderedList(ts: seq<Item>, parent: nat, lo: nat, fatSec: nat)
    requires (forall i :: 0 <= i < |ts| ==> Linked(ts[i], parent)) && TiledList(ts, lo) && lo >= ROOT_CLUS
    ensures var ds, fs := DirWritesList(ts, parent, fatSec), FileWritesList(ts, fatSec);
      var a, b := Off(fatSec, lo), Off(fatSec, lo + UsedBy(ts));
      Tidy(ds, fs, a, b)
    decreases ts, 1
  {
    hide Linked, DirWrites, FileWrites, Tiled, Tidy, Used, Base;
    if ts == [] {
      FileTidy([], Off(fatSec, lo), Off(fatSec, lo));
    } else {
      var mid := lo + Used(ts[0]);
      var a, m, b := Off(fatSec, lo), Off(fatSec, mid), Off(fatSec, lo + UsedBy(ts));
      WritesOrdered(ts[0], parent, lo, fatSec);
      WritesOrderedList(ts[1..], parent, mid, fatSec);
      TidyAppend(DirWrites(ts[0], parent, fatSec), FileWrites(ts[0], fatSec),
                 DirWritesList(ts[1..], parent, fatSec), FileWritesList(ts[1..], fatSec), a, m, b);
    }
  }

  lemma AllWritesOrderly(root: Item, fatSec: nat)
    requires root.DirItem? && Linked(root, 0) && Tiled(root, ROOT_CLUS)
    ensures Orderly(AllWrites(root, fatSec))
    ensures forall w :: w in AllWrites(root, fatSec) ==>
      Base(fatSec) <= w.off && w.off + w.room <= Off(fatSec, ROOT_CLUS + Used(root))
  {
    hide Linked, DirWrites, FileWrites, Tidy;
    WritesOrdered(root, 0, ROOT_CLUS, fatSec);
    TidyOrderly(DirWrites(root, 0, fatSec), FileWrites(root, fatSec),
                Off(fatSec, ROOT_CLUS), Off(fatSec, ROOT_CLUS + Used(root)));
  }

  // ---- when everything fits ----

  /** Directories of a subtree. */
  function Dirs(t: Item): nat
    decreases t, 0
  {
    if t.FileItem? then 0 else 1 + DirsIn(t.children)
  }

  function DirsIn(ts: seq<Item>): nat
    decreases ts, 1
  {
    if ts == [] then 0 else Dirs(ts[0]) + DirsIn(ts[1..])
  }

  lemma {:induction false} ExactHasNoSlack(ws: seq<Write>)
    requires Exact(ws)
    ensures Slack(ws) == 0
    decreases |ws|
  {
    if ws != [] { ExactHasNoSlack(ws[1..]); }
  }

  lemma SliceLength(bytes: Bytes, off: nat, n: nat, i: nat)
    requires n == ClustersFor(|bytes|) && i < n
    ensures var w := ClusterWrite(bytes, off, i);
      w.room - |w.bytes| == if i + 1 < n then 0 else n * CLUSTER - |bytes|
  {
    Scaled(i + 1, if i + 1 < n then n - 1 else n);
  }

  /** Only the last cluster of a directory comes up short. */
  lemma {:induction false} SlicesSlack(bytes: Bytes, off: nat, n: nat, i: nat)
    requires n == ClustersFor(|bytes|) && i <= n && |bytes| > 0
    ensures Slack(Slices(bytes, off, n)[i..]) == if i < n then n * CLUSTER - |bytes| else 0
    decreases n - i
  {
    hide ClusterWrite, ClustersFor;
    var ws := Slices(bytes, off, n)[i..];
    if i < n {
      SliceLength(bytes, off, n, i);
      assert ws[1..] == Slices(bytes, off, n)[i + 1..];
      SlicesSlack(bytes, off, n, i + 1);
    }
  }

  /** The bytes by which the directories of a subtree fall short of whole clusters. */
  function Shortfall(t: Item, parent: nat): nat
    requires Linked(t, parent)
    decreases t, 0
  {
    if t.FileItem? then 0
    else
      ChainLength(t, parent);
      t.clusters * CLUSTER - |ItemBytes(t)| + ShortfallIn(t.children, t.first)
  }

  function ShortfallIn(ts: seq<Item>, parent: nat): nat
    requires forall i :: 0 <= i < |ts| ==> Linked(ts[i], parent)
    decreases ts, 1
  {
    if ts == [] then 0 else Shortfall(ts[0], parent) + ShortfallIn(ts[1..], parent)
  }

  lemma ScaleSum(a: nat, b: nat)
    ensures (a + b) * CLUSTER == a * CLUSTER + b * CLUSTER
  {}

  lemma {:induction false} DirSlack(t: Item, parent: nat, fatSec: nat)
    requires Linked(t, parent)
    ensures Slack(DirWrites(t, parent, fatSec)) == Shortfall(t, parent) <= Dirs(t) * CLUSTER
    decreases t, 0
  {
    if t.DirItem? {
      hide DirWritable, DirClusters, DirBytes, ClustersFor, Slack, Dirs;
      var own := Slices(ItemBytes(t), Off(fatSec, t.first), t.clusters);
      DirBytesSize(ItemStubs(t.children), t.first, t.parent);
      ChainLength(t, parent);
      SlicesSlack(ItemBytes(t), Off(fatSec, t.first), t.clusters, 0);
      assert own[0..] == own;
      DirSlackList(t.children, t.first, fatSec);
      SlackAppend(own, DirWritesList(t.children, t.first, fatSec));
      ScaleSum(1, DirsIn(t.children));
      CountDirs(t);
    }
  }

  lemma CountDirs(t: Item)
    requires t.DirItem?
    ensures Dirs(t) * CLUSTER == (1 + DirsIn(t.children)) * CLUSTER
  {}

  lemma {:induction false} DirSlackList(ts: seq<Item>, parent: nat, fatSec: nat)
    requires forall i :: 0 <= i < |ts| ==> Linked(ts[i], parent)
    ensures Slack(DirWritesList(ts, parent, fatSec)) == ShortfallIn(ts, parent) <= DirsIn(ts) * CLUSTER
    decreases ts, 1
  {
    if ts != [] {
      hide Linked, DirWrites, Shortfall, Dirs, Slack, DirsIn;
      DirSlack(ts[0], parent, fatSec);
      DirSlackList(ts[1..], parent, fatSec);
      SlackAppend(DirWrites(ts[0], parent, fatSec), DirWritesList(ts[1..], parent, fatSec));
      ScaleSum(Dirs(ts[0]), DirsIn(ts[1..]));
      CountDirsIn(ts);
    }
  }

  lemma CountDirsIn(ts: seq<Item>)
    requires ts != []
    ensures DirsIn(ts) * CLUSTER == (Dirs(ts[0]) + DirsIn(ts[1..])) * CLUSTER
  {}

  /** The whole schedule shrinks the buffer by the directories' shortfall. */
  lemma AllWritesSlack(root: Item, fatSec: nat)
    requires Linked(root, 0)
    ensures Slack(AllWrites(root, fatSec)) == Shortfall(root, 0) <= Dirs(root) * CLUSTER
    decreases root, 2
  {
    hide Linked, DirWrites, FileWrites, Shortfall, Dirs;
    DirSlack(root, 0, fatSec);
    FileWritesExact(root, fatSec);
    ExactHasNoSlack(FileWrites(root, fatSec));
    SlackAppend(DirWrites(root, 0, fatSec), FileWrites(root, fatSec));
  }

  lemma {:induction false} FileWritesExact(t: Item, fatSec: nat)
    ensures Exact(FileWrites(t, fatSec))
    decreases t, 0
  {
    if t.DirItem? { FileWritesListExact(t.children, fatSec); }
  }

  lemma {:induction false} FileWritesListExact(ts: seq<Item>, fatSec: nat)
    ensures Exact(FileWritesList(ts, fatSec))
    decreases ts, 1
  {
    if ts != [] {
      FileWritesExact(ts[0], fatSec);
      FileWritesListExact(ts[1..], fatSec);
    }
  }

  /** A tree whose writes land leaves the image shorter by exactly the summed shortfall
      of its directories, unless its last byte lies beyond that. */
  lemma LandedTreeLength(root: Item, fatSec: nat, img: Bytes)
    requires root.DirItem? && Linked(root, 0) && Tiled(root, ROOT_CLUS)
    requires Lands(|img|, AllWrites(root, fatSec))
    ensures |ApplyAll(img, AllWrites(root, fatSec))| == Max(|img| - Shortfall(root, 0), End(AllWrites(root, fatSec)))
  {
    hide Linked, AllWrites, Shortfall, Tiled, Orderly, ApplyAll, Lands, End;
    AllWritesOrderly(root, fatSec);
    AllWritesSlack(root, fatSec);
    LandedLength(img, AllWrites(root, fatSec));
  }

  /** A tree that leaves one spare cluster per directory lands, and leaves the image
      shorter by exactly the shortfall. */
  lemma SpareClustersLand(root: Item, fatSec: nat, clus: nat, img: Bytes)
    requires root.DirItem? && Linked(root, 0) && Tiled(root, ROOT_CLUS)
    requires Used(root) + Dirs(root) <= clus && Base(fatSec) + clus * CLUSTER <= |img|
    ensures Lands(|img|, AllWrites(root, fatSec))
    ensures |ApplyAll(img, AllWrites(root, fatSec))| == |img| - Shortfall(root, 0)
    ensures End(AllWrites(root, fatSec)) <= |img| - Shortfall(root, 0)
  {
    hide Linked, AllWrites, Shortfall, Tiled, Orderly, End;
    AllWritesOrderly(root, fatSec);
    AllWritesSlack(root, fatSec);
    var ws := AllWrites(root, fatSec);
    forall w | w in ws
      ensures |w.bytes| <= w.room && w.off + w.room <= |img| - Slack(ws)
    {
      RoomOf(ws, w);
    }
    RoomyLands(img, ws);
    EndInside(|img| - Slack(ws), ws);
  }

  lemma RoomOf(ws: seq<Write>, w: Write)
    requires Orderly(ws) && w in ws
    ensures 0 < |w.bytes| <= w.room
  {}

  /** A directory never fills its last cluster: its records and the end mark leave at
      least 31 bytes. */
  lemma ShortfallAtLeast(t: Item, parent: nat)
    requires t.DirItem? && Linked(t, parent)
    ensures Shortfall(t, parent) >= 31
  {
    hide DirSize, DirBytes, DirWritable, DirClusters, ClustersFor;
    OwnShortfall(t, parent);
    ChainLength(t, parent);
    OddBytes(ItemStubs(t.children), t.first, t.parent);
    Leftover(|ItemBytes(t)|);
  }

  lemma OwnShortfall(t: Item, parent: nat)
    requires t.DirItem? && Linked(t, parent)
    ensures DirWritable(ItemStubs(t.children)) && Shortfall(t, parent) >= t.clusters * CLUSTER - |ItemBytes(t)|
  {
    hide DirBytes, DirWritable, DirClusters, ShortfallIn;
  }

  lemma Leftover(size: nat)
    requires size % 32 == 1
    ensures ClustersFor(size) * CLUSTER - size >= 31
  {
    hide ClustersFor;
    var n, k := ClustersFor(size), size / 32;
    assert size == 32 * k + 1;
    assert n * CLUSTER - size == 32 * (128 * n - k) - 1;
  }

  lemma OddBytes(cs: seq<Stub>, first: nat, parent: nat)
    requires DirWritable(cs)
    ensures |DirBytes(cs, first, parent)| % 32 == 1
  {
    hide DirBytes, DirWritable, DirSize, DirRecords, AllLong;
    DirBytesSize(cs, first, parent);
  }

  // ---- what lies behind a written region ----

  /** Every write starts at a cluster boundary. */
  ghost predicate Aligned(ws: seq<Write>, fatSec: nat) {
    forall i :: 0 <= i < |ws| ==> (ws[i].off - Base(fatSec)) % CLUSTER == 0
  }

  lemma AlignedOff(fatSec: nat, c: nat, i: nat)
    ensures (Off(fatSec, c) + i * CLUSTER - Base(fatSec)) % CLUSTER == 0
  {
    assert Off(fatSec, c) + i * CLUSTER - Base(fatSec) == CLUSTER * (c + i - 2);
  }

  lemma SlicesAligned(bytes: Bytes, fatSec: nat, c: nat, n: nat)
    ensures Aligned(Slices(bytes, Off(fatSec, c), n), fatSec)
  {
    hide Off, Base, Slice;
    forall i | 0 <= i < n
      ensures (Slices(bytes, Off(fatSec, c), n)[i].off - Base(fatSec)) % CLUSTER == 0
    {
      AlignedOff(fatSec, c, i);
    }
  }

  lemma {:induction false} DirWritesAligned(t: Item, parent: nat, fatSec: nat)
    requires Linked(t, parent)
    ensures Aligned(DirWrites(t, parent, fatSec), fatSec)
    decreases t, 0
  {
    hide Slices, ItemBytes, Base, Off, DirClusters, DirWritable;
    if t.DirItem? {
      SlicesAligned(ItemBytes(t), fatSec, t.first, t.clusters);
      DirWritesListAligned(t.children, t.first, fatSec);
    }
  }

  lemma {:induction false} DirWritesListAligned(ts: seq<Item>, parent: nat, fatSec: nat)
    requires forall i :: 0 <= i < |ts| ==> Linked(ts[i], parent)
    ensures Aligned(DirWritesList(ts, parent, fatSec), fatSec)
    decreases ts, 1
  {
    hide Linked, DirWrites, Base;
    if ts != [] {
      DirWritesAligned(ts[0], parent, fatSec);
      DirWritesListAligned(ts[1..], parent, fatSec);
    }
  }

  lemma {:induction false} FileWritesAligned(t: Item, fatSec: nat)
    ensures Aligned(FileWrites(t, fatSec), fatSec)
    decreases t, 0
  {
    hide Base, Off;
    if t.DirItem? {
      FileWritesListAligned(t.children, fatSec);
    } else {
      AlignedOff(fatSec, t.first, 0);
    }
  }

  lemma {:induction false} FileWritesListAligned(ts: seq<Item>, fatSec: nat)
    ensures Aligned(FileWritesList(ts, fatSec), fatSec)
    decreases ts, 1
  {
    hide FileWrites, Base;
    if ts != [] {
      FileWritesAligned(ts[0], fatSec);
      FileWritesListAligned(ts[1..], fatSec);
    }
  }

  /** No write reaches into the rest of another one's last cluster. */
  lemma TailUntouched(root: Item, fatSec: nat, w: Write, k: nat)
    requires root.DirItem? && Linked(root, 0) && Tiled(root, ROOT_CLUS) && w in AllWrites(root, fatSec)
    requires w.off + |w.bytes| <= k < w.off + CLUSTER * ClustersFor(|w.bytes|)
    ensures !Touched(AllWrites(root, fatSec), k)
  {
    hide Linked, Tiled, DirWrites, FileWrites, Sane, Follows;
    var ws := AllWrites(root, fatSec);
    AllWritesOrderly(root, fatSec);
    DirWritesAligned(root, 0, fatSec);
    FileWritesAligned(root, fatSec);
    assert Aligned(ws, fatSec);
    hide AllWrites, Base;
    var i :| 0 <= i < |ws| && ws[i] == w;
    forall j | 0 <= j < |ws|
      ensures !Covers(ws[j], k)
    {
      if i < j {
        assert Follows(ws[i], ws[j]);
      } else if j < i {
        assert Follows(ws[j], ws[i]);
      }
      NotInTail(w, ws[j], fatSec, k, i == j);
    }
  }

  lemma NotInTail(w: Write, v: Write, fatSec: nat, k: nat, same: bool)
    requires Sane(w) && Sane(v) && (if same then v == w else Follows(w, v) || Follows(v, w))
    requires (w.off - Base(fatSec)) % CLUSTER == 0 && (v.off - Base(fatSec)) % CLUSTER == 0
    requires w.off + |w.bytes| <= k < w.off + CLUSTER * ClustersFor(|w.bytes|)
    ensures !Covers(v, k)
  {
    hide Base;
    if !same && w.off + w.room <= v.off {
      var d := (v.off - Base(fatSec)) / CLUSTER - (w.off - Base(fatSec)) / CLUSTER;
      assert v.off - w.off == CLUSTER * d;
    }
  }
}
