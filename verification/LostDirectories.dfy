/** Volumes too full for their directories: what `inspect` says when directory writes
    have missed. */
module LostDirectories {
  import opened ByteStrings
  import opened Results
  import opened ShortNames
  import opened Geometry
  import opened Directory
  import opened Layout
  import opened Splices
  import opened Schedule
  import opened FormatImage
  import opened Inspect
  import opened ReadBack
  import opened RoundTrip
  import opened WholeProgram

  ghost predicate HeldOrGone(img: Bytes, ws: seq<Write>) {
    forall w :: w in ws ==> Holds(img, w) || |img| <= w.off
  }

  ghost predicate AllHeld(img: Bytes, ws: seq<Write>) { forall w :: w in ws ==> Holds(img, w) }

  lemma HeldAppend(img: Bytes, xs: seq<Write>, ys: seq<Write>)
    ensures AllHeld(img, xs + ys) <==> AllHeld(img, xs) && AllHeld(img, ys)
    ensures HeldOrGone(img, xs + ys) <==> HeldOrGone(img, xs) && HeldOrGone(img, ys)
  {
    hide Holds;
    assert forall w :: w in xs + ys <==> w in xs || w in ys;
  }

  /** Part of a laid-out tree, in an image with its chains and with every directory
      cluster either in place or past the end. */
  ghost predicate Placed(img: Bytes, fatSec: nat, fat: map<nat, nat>, t: Item, parent: nat, lo: nat) {
    && Linked(t, parent) && Tiled(t, lo) && LegalItem(t) && Chained(fat, t)
    && ROOT_CLUS <= lo && lo + Used(t) <= EOC_MIN && parent < lo && HoldsFat(img, FAT_START, fat)
    && HeldOrGone(img, DirWrites(t, parent, fatSec))
  }

  ghost predicate PlacedList(img: Bytes, fatSec: nat, fat: map<nat, nat>, ts: seq<Item>, parent: nat, lo: nat) {
    && (forall i :: 0 <= i < |ts| ==> Linked(ts[i], parent) && LegalItem(ts[i]) && Chained(fat, ts[i]))
    && TiledList(ts, lo)
    && ROOT_CLUS <= lo && lo + UsedBy(ts) <= EOC_MIN && parent < lo && HoldsFat(img, FAT_START, fat)
    && HeldOrGone(img, DirWritesList(ts, parent, fatSec))
  }

  lemma PlacedHead(img: Bytes, fatSec: nat, fat: map<nat, nat>, ts: seq<Item>, parent: nat, lo: nat)
    requires ts != [] && PlacedList(img, fatSec, fat, ts, parent, lo)
    ensures Linked(ts[0], parent) && Placed(img, fatSec, fat, ts[0], parent, lo)
    ensures PlacedList(img, fatSec, fat, ts[1..], parent, lo + Used(ts[0]))
    ensures UsedBy(ts) == Used(ts[0]) + UsedBy(ts[1..])
    ensures AllHeld(img, DirWritesList(ts, parent, fatSec))
            <==> AllHeld(img, DirWrites(ts[0], parent, fatSec)) && AllHeld(img, DirWritesList(ts[1..], parent, fatSec))
  {
    hide Linked, LegalItem, Chained, Tiled, Used, HoldsFat, DirWrites, AllHeld, HeldOrGone;
    HeldAppend(img, DirWrites(ts[0], parent, fatSec), DirWritesList(ts[1..], parent, fatSec));
  }

  lemma PlacedChildren(img: Bytes, fatSec: nat, fat: map<nat, nat>, t: Item, parent: nat, lo: nat)
    requires t.DirItem? && Placed(img, fatSec, fat, t, parent, lo)
    ensures Linked(t, parent) && t.first == lo && Used(t) == t.clusters + UsedBy(t.children) && t.clusters >= 1
    ensures PlacedList(img, fatSec, fat, t.children, t.first, lo + t.clusters)
    ensures DirWritable(ItemStubs(t.children))
    ensures var own := Slices(ItemBytes(t), Off(fatSec, t.first), t.clusters);
      && HeldOrGone(img, own)
      && (AllHeld(img, DirWrites(t, parent, fatSec))
          <==> AllHeld(img, own) && AllHeld(img, DirWritesList(t.children, t.first, fatSec)))
  {
    hide DirWritable, DirClusters, HoldsFat, AllHeld, HeldOrGone, DirWritesList, ItemBytes, ClusterWrite, Off;
    HeldAppend(img, Slices(ItemBytes(t), Off(fatSec, t.first), t.clusters),
               DirWritesList(t.children, t.first, fatSec));
  }

  lemma PlacedIsGood(img: Bytes, fatSec: nat, fat: map<nat, nat>, t: Item, parent: nat, lo: nat)
    requires Placed(img, fatSec, fat, t, parent, lo) && AllHeld(img, DirWrites(t, parent, fatSec))
    ensures Good(img, fatSec, fat, t, parent, lo)
  {
    hide Linked, LegalItem, Chained, Tiled, Used, HoldsFat, DirWrites, Holds;
  }

  // ---- one directory ----

  /** The first cluster of a directory that is not in place. */
  lemma {:induction false} FirstLost(img: Bytes, bytes: Bytes, off: nat, n: nat, i: nat) returns (j: nat)
    requires i <= n && forall k :: 0 <= k < i ==> Holds(img, ClusterWrite(bytes, off, k))
    requires !AllHeld(img, Slices(bytes, off, n))
    ensures j < n && !Holds(img, ClusterWrite(bytes, off, j))
    ensures forall k :: 0 <= k < j ==> Holds(img, ClusterWrite(bytes, off, k))
    decreases n - i
  {
    hide Holds, ClusterWrite;
    if i < n && Holds(img, ClusterWrite(bytes, off, i)) {
      j := FirstLost(img, bytes, off, n, i + 1);
    } else {
      j := i;
    }
  }

  lemma OwnLost(img: Bytes, tot: nat, fatSec: nat, fat: map<nat, nat>, t: Item, parent: nat, lo: nat,
                visited: set<nat>, fuel: nat)
    requires t.DirItem? && Placed(img, fatSec, fat, t, parent, lo) && Used(t) <= fuel
    requires DirWritable(ItemStubs(t.children))
    requires !AllHeld(img, Slices(ItemBytes(t), Off(fatSec, t.first), t.clusters))
    requires forall v :: v in visited ==> v <= lo
    ensures ReadDir(img, TheGeo(tot, fatSec), t.first, visited, [], [], [], fuel) == Raised
  {
    hide Linked, Tiled, LegalItem, DirWritable, Feed, Flatten, ReadDir, Holds, HoldsFat, ChainIn, ClusterWrite, IsShown,
         Off, ItemBytes, EntriesOf, ShortsOf, AllHeld, DirWrites, HeldOrGone;
    PlacedChildren(img, fatSec, fat, t, parent, lo);
    var own := Slices(ItemBytes(t), Off(fatSec, t.first), t.clusters);
    var recs, all := DirFeeds(t, parent, lo);
    var j := FirstLost(img, ItemBytes(t), Off(fatSec, t.first), t.clusters, 0);
    GoneAt(img, own, j);
    PlaceOf(ItemBytes(t), fatSec, t.first, j);
    FedIsKeyed(recs);
    assert recs[..0] == [];
    DirLostFrom(img, tot, fatSec, fat, recs, t.first, t.clusters, 0, j, visited, fuel, [], [], []);
  }

  lemma GoneAt(img: Bytes, ws: seq<Write>, j: nat)
    requires HeldOrGone(img, ws) && j < |ws| && !Holds(img, ws[j])
    ensures |img| <= ws[j].off
  {}

  lemma PlaceOf(bytes: Bytes, fatSec: nat, first: nat, j: nat)
    ensures first >= ROOT_CLUS ==> ClusterWrite(bytes, Off(fatSec, first), j).off == Off(fatSec, first + j)
  {}

  // ---- the walk ----

  /** The walk of a subtree that has lost a directory cluster fails. */
  lemma {:induction false} WalkLost(img: Bytes, tot: nat, fatSec: nat, fat: map<nat, nat>, t: Item, parent: nat,
                                    lo: nat, depth: nat, visited: set<nat>, path: Text, fuel: nat)
    requires t.DirItem? && Placed(img, fatSec, fat, t, parent, lo) && Used(t) <= fuel
    requires !AllHeld(img, DirWrites(t, parent, fatSec)) && forall v :: v in visited ==> v < lo
    ensures WalkDir(img, TheGeo(tot, fatSec), t.first, depth, visited, path, fuel) == Raised
    decreases t, 0
  {
    hide PlacedList, Used, UsedBy, ReadDir, Shown, WalkEntries, ShortsOf, EntriesOf, ItemStubs, Linked, AllHeld,
         DirWrites, DirWritesList, Slices, HeldOrGone, Placed, ItemBytes, Off, HoldsFat, FatOf;
    PlacedChildren(img, fatSec, fat, t, parent, lo);
    if AllHeld(img, Slices(ItemBytes(t), Off(fatSec, t.first), t.clusters)) {
      OwnHeld(img, tot, fatSec, fat, t, parent, lo, visited + {t.first}, fuel);
      WalkListLost(img, tot, fatSec, fat, t.children, ShortsOf(t, parent), t.first, lo + t.clusters, depth + 1,
                   visited + {t.first}, path, fuel - 1);
    } else {
      OwnLost(img, tot, fatSec, fat, t, parent, lo, visited + {t.first}, fuel);
    }
  }

  lemma OwnHeld(img: Bytes, tot: nat, fatSec: nat, fat: map<nat, nat>, t: Item, parent: nat, lo: nat,
                visited: set<nat>, fuel: nat)
    requires t.DirItem? && Placed(img, fatSec, fat, t, parent, lo) && Used(t) <= fuel
    requires Linked(t, parent) && DirWritable(ItemStubs(t.children))
    requires AllHeld(img, Slices(ItemBytes(t), Off(fatSec, t.first), t.clusters))
    requires forall v :: v in visited ==> v <= lo
    ensures var r := ReadDir(img, TheGeo(tot, fatSec), t.first, visited, [], [], [], fuel);
      r.Ok? && Shown(r.value.1) == EntriesOf(ItemStubs(t.children), ShortsOf(t, parent))
  {
    hide Linked, Tiled, LegalItem, DirWritable, ReadDir, Holds, HoldsFat, ChainIn, ClusterWrite, Off, ItemBytes,
         EntriesOf, ShortsOf, DirWrites, HeldOrGone, Shown;
    var own := Slices(ItemBytes(t), Off(fatSec, t.first), t.clusters);
    forall k | 0 <= k < t.clusters
      ensures Holds(img, ClusterWrite(ItemBytes(t), Off(fatSec, t.first), k))
    {
      assert own[k] in own;
    }
    OwnDirReads(img, tot, fatSec, fat, t, parent, lo, visited, fuel);
  }

  lemma {:induction false} WalkListLost(img: Bytes, tot: nat, fatSec: nat, fat: map<nat, nat>, ts: seq<Item>,
                                        shorts: seq<Bytes>, parent: nat, lo: nat, depth: nat, visited: set<nat>,
                                        path: Text, fuel: nat)
    requires Eleven(ts, shorts) && PlacedList(img, fatSec, fat, ts, parent, lo) && UsedBy(ts) <= fuel
    requires !AllHeld(img, DirWritesList(ts, parent, fatSec)) && forall v :: v in visited ==> v < lo
    ensures WalkEntries(img, TheGeo(tot, fatSec), EntriesOf(ItemStubs(ts), shorts), depth, visited, path, fuel)
            == Raised
    decreases ts, 1
  {
    hide EntriesOf, ItemStubs, EntryOf, ItemStub, Placed, PlacedList, Linked, Used, UsedBy, WalkEntry, DirWrites,
         HeldOrGone, DirWritesList, AllHeld, WalkEntries;
    EntriesTail(ts, shorts);
    if ts == [] {
      NoneToLose(img, parent, fatSec);
    } else {
      FirstFails(img, TheGeo(tot, fatSec), EntriesOf(ItemStubs(ts), shorts), depth, visited, path, fuel);
      PlacedHead(img, fatSec, fat, ts, parent, lo);
      if AllHeld(img, DirWrites(ts[0], parent, fatSec)) {
        WalkOneHeld(img, tot, fatSec, fat, ts[0], shorts[0], parent, lo, depth, visited, path, fuel);
        WalkListLost(img, tot, fatSec, fat, ts[1..], shorts[1..], parent, lo + Used(ts[0]), depth, visited, path, fuel);
      } else {
        WalkOneLost(img, tot, fatSec, fat, ts[0], shorts[0], parent, lo, depth, visited, path, fuel);
      }
    }
  }

  lemma NoneToLose(img: Bytes, parent: nat, fatSec: nat)
    ensures AllHeld(img, DirWritesList([], parent, fatSec))
  {}

  /** The loop over the entries fails with the first of them, or with the rest. */
  lemma FirstFails(img: Bytes, g: Geo, es: seq<Entry>, depth: nat, visited: set<nat>, path: Text, fuel: nat)
    requires es != []
    ensures var one := WalkEntry(img, g, es[0], depth, visited, path, fuel);
      var all := WalkEntries(img, g, es, depth, visited, path, fuel);
      && (one == Raised ==> all == Raised)
      && (one.Ok? && WalkEntries(img, g, es[1..], depth, visited, path, fuel) == Raised ==> all == Raised)
  {
    hide WalkEntry;
  }

  lemma WalkOneHeld(img: Bytes, tot: nat, fatSec: nat, fat: map<nat, nat>, t: Item, short: Bytes, parent: nat,
                    lo: nat, depth: nat, visited: set<nat>, path: Text, fuel: nat)
    requires |short| == 11 && Placed(img, fatSec, fat, t, parent, lo) && Used(t) <= fuel && Linked(t, parent)
    requires AllHeld(img, DirWrites(t, parent, fatSec)) && forall v :: v in visited ==> v < lo
    ensures WalkEntry(img, TheGeo(tot, fatSec), EntryOf(ItemStub(t), short), depth, visited, path, fuel).Ok?
  {
    hide Placed, Good, Linked, Used, WalkEntry, AllHeld, DirWrites, Walks, Listing, ItemLine;
    PlacedIsGood(img, fatSec, fat, t, parent, lo);
    WalkOneReads(img, tot, fatSec, fat, t, short, parent, lo, depth, visited, path, fuel);
  }

  lemma {:induction false} WalkOneLost(img: Bytes, tot: nat, fatSec: nat, fat: map<nat, nat>, t: Item, short: Bytes,
                                       parent: nat, lo: nat, depth: nat, visited: set<nat>, path: Text, fuel: nat)
    requires |short| == 11 && Placed(img, fatSec, fat, t, parent, lo) && Used(t) <= fuel && Linked(t, parent)
    requires !AllHeld(img, DirWrites(t, parent, fatSec)) && forall v :: v in visited ==> v < lo
    ensures WalkEntry(img, TheGeo(tot, fatSec), EntryOf(ItemStub(t), short), depth, visited, path, fuel) == Raised
    decreases t, 1
  {
    hide WalkDir, LineOf, Linked, Placed, Used;
    if t.DirItem? {
      hide AllHeld, DirWrites;
      WalkLost(img, tot, fatSec, fat, t, parent, lo, depth, visited, Below(path, t.name), fuel);
    }
  }

  // ---- create, then inspect ----

  /** The image ends before each directory cluster whose write missed. The caller can
      tell from offsets and sizes alone. */
  predicate EndsBefore(len: nat, ws: seq<Write>, dirs: nat)
    requires dirs <= |ws|
  {
    forall i :: 0 <= i < dirs ==> LandsAt(len, ws, i) || LenAll(len, ws) <= ws[i].off
  }

  /** On an image that ends before each directory cluster whose write missed, `inspect`
      fails exactly when some directory write has missed. */
  lemma RaisesIff(img: Bytes, t: Tree, tot: nat, fuel: nat)
    requires Covered(t) && Linked(LayoutRoot(t), 0) && MadeImage(img, LayoutRoot(t), tot, FatSectors(tot))
    requires var fatSec := FatSectors(tot);
      EndsBefore(tot * 512 + 2, AllWrites(LayoutRoot(t), fatSec), |DirWrites(LayoutRoot(t), 0, fatSec)|)
    requires Used(LayoutRoot(t)) <= fuel
    ensures InspectReport(img, fuel) == Raised <==> !Lands(tot * 512 + 2, DirWrites(LayoutRoot(t), 0, FatSectors(tot)))
    ensures InspectReport(img, fuel) == Raised || InspectReport(img, fuel).Ok?
  {
    hide FatSectors, Covered, LayoutRoot, Linked, Used, Represents, CarriesDirectories, AllWrites, DirWrites, Lands,
         End, LenAll, Formatted, FinalLength, InspectReport, LandedHold, EndsBefore, Good, Placed, AllHeld;
    var root, fatSec, len := LayoutRoot(t), FatSectors(tot), tot * 512 + 2;
    if Lands(len, DirWrites(root, 0, fatSec)) {
      ListingUndoesCreate(img, t, tot, fuel);
    } else {
      MadeIsPlaced(img, t, tot);
      MissedNotHeld(img, root, fatSec, len);
      StartOfVolume(img, root, tot, fatSec);
      WalkLost(img, tot, fatSec, FatOf(root), root, 0, ROOT_CLUS, 0, {}, [], fuel);
      InspectIsWalk(img, tot, fatSec, fuel);
    }
  }

  lemma StartOfVolume(img: Bytes, root: Item, tot: nat, fatSec: nat)
    requires Linked(root, 0) && Formatted(img, tot, fatSec, FatOf(root))
    ensures PartitionStart(img) == 0 && ReadBpb(img, 0) == Ok(TheGeo(tot, fatSec))
  {
    hide HoldsFat, RestFree, Linked, FatOf, PartitionStart, ReadBpb, HasBpb, HasFsInfo, Quiet;
    BpbReadBack(img, tot, fatSec);
  }

  lemma InspectIsWalk(img: Bytes, tot: nat, fatSec: nat, fuel: nat)
    requires PartitionStart(img) == 0 && ReadBpb(img, 0) == Ok(TheGeo(tot, fatSec))
    ensures InspectReport(img, fuel) == WalkDir(img, TheGeo(tot, fatSec), ROOT_CLUS, 0, {}, [], fuel)
  {
    hide PartitionStart, ReadBpb, WalkDir;
  }

  lemma MadeIsPlaced(img: Bytes, t: Tree, tot: nat)
    requires Covered(t) && Linked(LayoutRoot(t), 0) && MadeImage(img, LayoutRoot(t), tot, FatSectors(tot))
    requires var fatSec := FatSectors(tot);
      EndsBefore(tot * 512 + 2, AllWrites(LayoutRoot(t), fatSec), |DirWrites(LayoutRoot(t), 0, fatSec)|)
    ensures var root := LayoutRoot(t);
      && root.DirItem? && root.first == ROOT_CLUS && Tiled(root, ROOT_CLUS)
      && Placed(img, FatSectors(tot), FatOf(root), root, 0, ROOT_CLUS)
  {
    hide FatSectors, Covered, LayoutRoot, Linked, Used, Represents, CarriesDirectories, DirWrites, FileWrites, Lands,
         End, LenAll, FinalLength, LandsAt, Holds, HoldsFat, RestFree, BootRegion, Tiled, LegalItem, Chained, FatOf;
    var root, fatSec := LayoutRoot(t), FatSectors(tot);
    CoveredLayout(t);
    var ds, ws := DirWrites(root, 0, fatSec), AllWrites(root, fatSec);
    forall w | w in ds
      ensures Holds(img, w) || |img| <= w.off
    {
      var i :| 0 <= i < |ds| && ds[i] == w;
      assert ws[i] == w;
    }
  }

  lemma MissedNotHeld(img: Bytes, root: Item, fatSec: nat, len: nat)
    requires Linked(root, 0) && root.DirItem? && Tiled(root, ROOT_CLUS)
    requires EndsBefore(len, AllWrites(root, fatSec), |DirWrites(root, 0, fatSec)|)
    requires |img| == LenAll(len, AllWrites(root, fatSec)) && !Lands(len, DirWrites(root, 0, fatSec))
    ensures !AllHeld(img, DirWrites(root, 0, fatSec))
  {
    hide Linked, Tiled, DirWrites, FileWrites, Lands, LenAll, Orderly;
    var ds, ws := DirWrites(root, 0, fatSec), AllWrites(root, fatSec);
    AllWritesOrderly(root, fatSec);
    LandsIsEach(len, ds);
    var i :| 0 <= i < |ds| && !LandsAt(len, ds, i);
    assert ws[i] == ds[i] && ws[..i] == ds[..i];
    assert !LandsAt(len, ws, i);
    RoomOf(ws, ws[i]);
    assert !Holds(img, ds[i]);
  }

  // ---- a tree that fits and loses a directory ----

  const FILL := 65656 * CLUSTER

  /** A root with a directory that holds a file of `FILL` bytes, and an empty directory. */
  function LosingTree(): Tree { Dir([], [Dir([65], [File([66], Zeros(FILL))]), Dir([67], [])]) }

  function LosingItem(): Item {
    DirItem([], [DirItem([65], [FileItem([66], Zeros(FILL), 4)], 3, 2, 1), DirItem([67], [], 65660, 2, 1)], 2, 0, 1)
  }

  lemma LosingLayout()
    ensures LayoutRoot(LosingTree()) == LosingItem() && TreeWritable(LosingTree())
  {
    hide DirClusters, DirWritable, Zeros, LayoutList, ShortNamed, ClustersFor, TreeWritable;
    var sub, last := Dir([65], [File([66], Zeros(FILL))]), Dir([67], []);
    LosingNames();
    LosingWritable();
    OneClusterDir([sub, last], 0);
    LosingKids();
  }

  lemma LosingKids()
    ensures LayoutList(LosingTree().children, 2, 3) == (LosingItem().children, 65661)
  {
    hide LayoutOne, LayoutList, Zeros;
    var sub, last := Dir([65], [File([66], Zeros(FILL))]), Dir([67], []);
    LosingSub();
    LosingLast();
    LayoutSingle(last, 2, 65660);
    assert [sub] + [last] == [sub, last];
    LayoutCons(sub, [last], 2, 3);
    var items := LosingItem().children;
    assert [items[0]] + [items[1]] == items;
  }

  lemma LosingWritable()
    ensures TreeWritable(LosingTree())
  {
    hide TreeWritable, Zeros, ShortNamed;
    var file := File([66], Zeros(FILL));
    var sub, last := Dir([65], [file]), Dir([67], []);
    LosingNames();
    FileWritable(file);
    WritableDir([65], [file]);
    WritableDir([67], []);
    WritableDir([], [sub, last]);
  }

  /** The first directory takes cluster 3, its file clusters 4 to 65659. */
  lemma LosingSub()
    ensures LayoutOne(Dir([65], [File([66], Zeros(FILL))]), 2, 3)
            == (DirItem([65], [FileItem([66], Zeros(FILL), 4)], 3, 2, 1), 65660)
  {
    hide DirClusters, Zeros, LayoutList, ShortNamed, ClustersFor;
    var file := File([66], Zeros(FILL));
    FillClusters();
    LosingNames();
    OneClusterDir([file], 2);
    assert LayoutOne(file, 3, 4) == (FileItem([66], Zeros(FILL), 4), 65660);
    LayoutSingle(file, 3, 4);
  }

  lemma LosingLast()
    ensures LayoutOne(Dir([67], []), 2, 65660) == (DirItem([67], [], 65660, 2, 1), 65661)
  {
    hide DirClusters, LayoutList, ShortNamed;
    LosingNames();
    OneClusterDir([], 2);
    LayoutEmpty(65660, 65661);
  }

  lemma LayoutEmpty(parent: nat, next: nat)
    ensures LayoutList([], parent, next) == ([], next)
  {}

  lemma FillClusters()
    ensures ClustersFor(FILL) == 65656
  {}

  lemma LosingNames()
    ensures ShortNamed([]) && ShortNamed([File([66], Zeros(FILL))])
    ensures ShortNamed([Dir([65], [File([66], Zeros(FILL))]), Dir([67], [])])
  {}

  lemma LosingSize()
    ensures Used(LosingItem()) == 65659 && LegalTree(LosingTree())
  {
    hide Zeros, ClustersFor;
    var kids := LosingItem().children;
    var files := kids[0].children;
    FillClusters();
    assert UsedBy(files) == 65656 by { assert files[1..] == []; }
    assert UsedBy(kids[1..]) == 1 by { assert kids[1..][1..] == []; }
    assert UsedBy(kids) == 65658;
    assert LegalTree(LosingTree().children[0]);
  }

  /** The writes of that tree: three directory clusters, each far from full, then the
      file, which ends where the last directory begins. */
  lemma LosingWrites() returns (ws: seq<Write>)
    requires Linked(LosingItem(), 0)
    ensures ws == AllWrites(LosingItem(), 514) && |ws| == 4 && ws[..3] == DirWrites(LosingItem(), 0, 514)
    ensures ws[0].off == 542720 && ws[0].room == CLUSTER && |ws[0].bytes| <= 257
    ensures ws[1].off == 546816 && ws[1].room == CLUSTER && |ws[1].bytes| <= 257
    ensures ws[2].off == 269477888 && ws[2].room == CLUSTER && |ws[2].bytes| <= 257
    ensures ws[3].off == 550912 && ws[3].room == |ws[3].bytes| == FILL
  {
    hide ItemBytes, ClusterWrite, Zeros, DirWritable, DirClusters, Off;
    CrowdedPlaces();
    var item := LosingItem();
    var kids := item.children;
    var sub, last := kids[0], kids[1];
    LosingBytes();
    var one, two := Slices(ItemBytes(item), Off(514, 2), 1), Slices(ItemBytes(sub), Off(514, 3), 1);
    var three := Slices(ItemBytes(last), Off(514, 65660), 1);
    var file := Write(Off(514, 4), FILL, Zeros(FILL));
    assert DirWritesList(sub.children, 3, 514) == [] by { assert sub.children[1..] == []; }
    assert DirWrites(sub, 2, 514) == two && DirWrites(last, 2, 514) == three;
    assert DirWritesList(kids[1..], 2, 514) == three by { assert kids[1..][1..] == []; }
    assert DirWritesList(kids, 2, 514) == two + three;
    assert FileWritesList(sub.children, 514) == [file] by { assert sub.children[1..] == []; }
    assert FileWritesList(kids[1..], 514) == [] by { assert kids[1..][1..] == []; }
    assert FileWritesList(kids, 514) == [file];
    ws := one + (two + three) + [file];
    assert ws[..3] == one + (two + three);
    assert ws[0] == ClusterWrite(ItemBytes(item), Off(514, 2), 0);
    assert ws[1] == ClusterWrite(ItemBytes(sub), Off(514, 3), 0);
    assert ws[2] == ClusterWrite(ItemBytes(last), Off(514, 65660), 0);
    FirstCluster(ItemBytes(item), Off(514, 2));
    FirstCluster(ItemBytes(sub), Off(514, 3));
    FirstCluster(ItemBytes(last), Off(514, 65660));
  }

  lemma LosingBytes()
    requires Linked(LosingItem(), 0)
    ensures DirWritable(ItemStubs(LosingItem().children)) && |ItemBytes(LosingItem())| <= 257
    ensures var sub := LosingItem().children[0];
      Linked(sub, 2) && DirWritable(ItemStubs(sub.children)) && |ItemBytes(sub)| <= 257
    ensures var last := LosingItem().children[1];
      Linked(last, 2) && DirWritable(ItemStubs(last.children)) && |ItemBytes(last)| <= 257
  {
    hide DirBytes, DirSize, DirClusters, DirWritable, Zeros, ShortNamed;
    LosingNames();
    var item, tree := LosingItem(), LosingTree();
    SmallBytes(ItemStubs(item.children), tree.children, 2, 0);
    SmallBytes(ItemStubs(item.children[0].children), tree.children[0].children, 3, 2);
    SmallBytes(ItemStubs([]), [], 65660, 2);
  }

  lemma MissesDirectory(ws: seq<Write>)
    requires |ws| == 4
    requires ws[0].off == 542720 && ws[0].room == CLUSTER && |ws[0].bytes| <= 257
    requires ws[1].off == 546816 && ws[1].room == CLUSTER && |ws[1].bytes| <= 257
    requires ws[2].off == 269477888 && ws[2].room == CLUSTER && |ws[2].bytes| <= 257
    requires ws[3].off == 550912 && ws[3].room == |ws[3].bytes| == FILL
    ensures EndsBefore(257 * 2048 * 512 + 2, ws, 3) && !Lands(257 * 2048 * 512 + 2, ws[..3])
  {
    hide LenAfter;
    var len := 257 * 2048 * 512 + 2;
    LosingLengths(ws);
    LenSteps(len, ws);
    assert LandsAt(len, ws, 0) && LandsAt(len, ws, 1);
    LandsIsEach(len, ws[..3]);
    assert ws[..3][..2] == ws[..2];
    assert !LandsAt(len, ws[..3], 2);
  }

  lemma LosingLengths(ws: seq<Write>)
    requires |ws| == 4
    requires ws[0].off == 542720 && ws[0].room == CLUSTER && |ws[0].bytes| <= 257
    requires ws[1].off == 546816 && ws[1].room == CLUSTER && |ws[1].bytes| <= 257
    requires ws[2].off == 269477888 && ws[2].room == CLUSTER && |ws[2].bytes| <= 257
    requires ws[3].off == 550912 && ws[3].room == |ws[3].bytes| == FILL
    ensures var l1 := LenAfter(257 * 2048 * 512 + 2, ws[0]);
      var l2 := LenAfter(l1, ws[1]);
      l1 >= 546816 && l2 < 269477888 && LenAfter(LenAfter(l2, ws[2]), ws[3]) == 269477888
  {}

  lemma LenSteps(len: nat, ws: seq<Write>)
    requires |ws| == 4
    ensures LenAll(len, ws[..0]) == len && LenAll(len, ws[..1]) == LenAfter(len, ws[0])
    ensures LenAll(len, ws[..2]) == LenAfter(LenAfter(len, ws[0]), ws[1])
    ensures LenAll(len, ws) == LenAfter(LenAfter(LenAfter(LenAfter(len, ws[0]), ws[1]), ws[2]), ws[3])
  {
    hide LenAfter;
    LenSnoc(len, ws[..0], ws[0]);
    LenSnoc(len, ws[..1], ws[1]);
    LenSnoc(len, ws[..2], ws[2]);
    LenSnoc(len, ws[..3], ws[3]);
    assert ws[..0] + [ws[0]] == ws[..1] && ws[..1] + [ws[1]] == ws[..2] && ws[..2] + [ws[2]] == ws[..3];
    assert ws[..3] + [ws[3]] == ws;
  }

  lemma {:induction false} LenSnoc(len: nat, ws: seq<Write>, w: Write)
    ensures LenAll(len, ws + [w]) == LenAfter(LenAll(len, ws), w)
    decreases |ws|
  {
    hide LenAfter;
    if ws == [] {
      assert ws + [w] == [w] && [w][1..] == [];
      assert LenAll(LenAfter(len, w), []) == LenAfter(len, w);
    } else {
      assert (ws + [w])[0] == ws[0] && (ws + [w])[1..] == ws[1..] + [w];
      LenSnoc(LenAfter(len, ws[0]), ws[1..], w);
    }
  }

  /** A tree that fits may lose a directory: this one fills a 257 MB volume to the last
      cluster, and the write of its second directory does not land. */
  lemma FittingLosesDirectory()
    ensures var t, tot := LosingTree(), 257 * 2048;
      && Covered(t) && GoodSize(tot) && LayoutRoot(t) == LosingItem() && Linked(LosingItem(), 0)
      && Used(LosingItem()) == ClusterCount(tot) && FatSectors(tot) == 514
      && 4 * (ROOT_CLUS + Used(LosingItem())) <= 514 * 512
      && EndsBefore(tot * 512 + 2, AllWrites(LosingItem(), 514), |DirWrites(LosingItem(), 0, 514)|)
      && !Lands(tot * 512 + 2, DirWrites(LosingItem(), 0, 514))
  {
    hide Zeros, TreeWritable, AllWrites, DirWrites, Lands, LayoutOne, LayoutRoot, LegalTree, Used, Linked, LenAll,
         EndsBefore;
    assert FatSectors(257 * 2048) == 514 && ClusterCount(257 * 2048) == 65659;
    LosingLayout();
    LosingSize();
    LayoutReady(LosingTree());
    var ws := LosingWrites();
    MissesDirectory(ws);
  }

  /** And `inspect` fails on the image of that tree. */
  lemma LosingOutcome(img: Bytes, fuel: nat)
    requires Linked(LosingItem(), 0) && MadeImage(img, LosingItem(), 257 * 2048, 514) && 65659 <= fuel
    ensures InspectReport(img, fuel) == Raised
  {
    hide Zeros, Covered, AllWrites, DirWrites, Lands, LayoutRoot, Used, Linked, LenAll, MadeImage, InspectReport,
         EndsBefore;
    FittingLosesDirectory();
    assert ClusterCount(257 * 2048) == 65659;
    RaisesIff(img, LosingTree(), 257 * 2048, fuel);
  }
}
