/** The results about `create` and `inspect` together. */
module WholeProgram {
  import opened ByteStrings
  import opened Results
  import opened ShortNames
  import opened LongNames
  import opened Geometry
  import opened Directory
  import opened Layout
  import opened Splices
  import opened Schedule
  import opened Writer
  import opened FormatImage
  import opened Inspect
  import opened Occupancy
  import opened ReadBack
  import opened RoundTrip
  import opened Partition

  /** The trees the round trip covers: encodable, with names the codec keeps, and
      clusters below the end-of-chain values. */
  predicate Covered(t: Tree) {
    && t.Dir? && TreeWritable(t) && LegalTree(t)
    && ROOT_CLUS + Used(LayoutRoot(t)) <= EOC_MIN
  }

  /** An image that carries the directories of a covered tree holds every directory byte
      and every chain of it, with the clusters tiled from 2 on. */
  lemma CarriedIsGood(img: Bytes, t: Tree, tot: nat)
    requires Covered(t) && Linked(LayoutRoot(t), 0)
    requires CarriesDirectories(img, LayoutRoot(t), tot, FatSectors(tot))
    ensures var root := LayoutRoot(t);
      && root.DirItem? && root.first == ROOT_CLUS && Bare(root) == t
      && Good(img, FatSectors(tot), FatOf(root), root, 0, ROOT_CLUS) && Tiled(root, ROOT_CLUS)
  {
    hide FatSectors, CarriesDirectories, LayoutOne, TreeWritable, Good, Tiled, Bare, Linked, Covered, LayoutRoot, FatOf;
    CoveredLayout(t);
    CarriedParts(img, LayoutRoot(t), tot, FatSectors(tot));
    PartsAreGood(img, LayoutRoot(t), FatSectors(tot));
  }

  /** One that carries the whole tree holds every file byte, too, and every written
      cluster padded with zeros. */
  lemma RepresentedIsGood(img: Bytes, t: Tree, tot: nat)
    requires Covered(t) && Linked(LayoutRoot(t), 0)
    requires Represents(img, LayoutRoot(t), tot, FatSectors(tot))
    ensures var root := LayoutRoot(t);
      && root.DirItem? && CarriesDirectories(img, root, tot, FatSectors(tot))
      && FilesHold(img, FileWrites(root, FatSectors(tot)))
      && forall w :: w in AllWrites(root, FatSectors(tot)) ==> ZeroPadded(img, w)
  {
    hide FatSectors, AllWrites, Represents, LayoutOne, TreeWritable, Tiled, Bare, Linked, Covered, ZeroPadded,
         LayoutRoot, FatOf, CarriesDirectories, FilesHold;
    CoveredLayout(t);
    RepresentsParts(img, LayoutRoot(t), tot, FatSectors(tot));
    forall w | w in AllWrites(LayoutRoot(t), FatSectors(tot))
      ensures ZeroPadded(img, w)
    {
      RegionPadded(img, LayoutRoot(t), tot, FatSectors(tot), w);
    }
  }

  lemma CoveredLayout(t: Tree)
    requires Covered(t) && Linked(LayoutRoot(t), 0)
    ensures var root := LayoutRoot(t);
      && root.DirItem? && root.first == ROOT_CLUS && Bare(root) == t && LegalItem(root) && Chained(FatOf(root), root)
      && Tiled(root, ROOT_CLUS) && ROOT_CLUS + Used(root) <= EOC_MIN
  {
    hide TreeWritable, LayoutOne, LegalItem, LegalTree, Bare, FatOf, Chained, ClustersOf, Linked, DirClusters, Used;
    LayoutTheorem(t);
    LayoutReady(t);
    LegalItems(LayoutRoot(t));
  }

  lemma RepresentsParts(img: Bytes, root: Item, tot: nat, fatSec: nat)
    requires Linked(root, 0) && Represents(img, root, tot, fatSec)
    ensures CarriesDirectories(img, root, tot, fatSec) && FilesHold(img, FileWrites(root, fatSec))
  {
    hide Formatted, DirWrites, FileWrites, Holds, FatOf, Linked, ZeroElsewhere;
    var ds, fs := DirWrites(root, 0, fatSec), FileWrites(root, fatSec);
    assert forall w :: w in ds ==> w in AllWrites(root, fatSec);
    assert forall w :: w in fs ==> w in AllWrites(root, fatSec);
  }

  lemma CarriedParts(img: Bytes, root: Item, tot: nat, fatSec: nat)
    requires Linked(root, 0) && CarriesDirectories(img, root, tot, fatSec)
    ensures HoldsFat(img, FAT_START, FatOf(root)) && forall w :: w in DirWrites(root, 0, fatSec) ==> Holds(img, w)
  {
    hide HoldsFat, RestFree, BootRegion, DirWrites, Holds, FatOf, Linked;
  }

  lemma PartsAreGood(img: Bytes, root: Item, fatSec: nat)
    requires Linked(root, 0) && Tiled(root, ROOT_CLUS) && LegalItem(root) && Chained(FatOf(root), root)
    requires ROOT_CLUS + Used(root) <= EOC_MIN && HoldsFat(img, FAT_START, FatOf(root))
    requires forall w :: w in DirWrites(root, 0, fatSec) ==> Holds(img, w)
    ensures Good(img, fatSec, FatOf(root), root, 0, ROOT_CLUS)
  {
    hide HoldsFat, Holds, DirWrites, LegalItem, FatOf, Chained, Linked, Tiled, Used;
  }

  /** The listing. On an image that carries the directories of a covered tree the
      reader, which looks at no file byte, recovers the geometry, lists exactly that
      tree in order, and finds every allocated cluster claimed once and no conflict. */
  lemma ListingUndoesCreate(img: Bytes, t: Tree, tot: nat, fuel: nat)
    requires Covered(t) && Linked(LayoutRoot(t), 0)
    requires CarriesDirectories(img, LayoutRoot(t), tot, FatSectors(tot))
    requires Used(LayoutRoot(t)) <= fuel
    ensures var root := LayoutRoot(t);
      && root.DirItem?
      && PartitionStart(img) == 0 && ReadBpb(img, 0) == Ok(TheGeo(tot, FatSectors(tot)))
      && InspectReport(img, fuel) == Ok(Report(Listing(root, 0, 0), Walks(root, [])))
    ensures var books := MarkAll(NOTHING, Flat(Walks(LayoutRoot(t), [])));
      && books.conflicts == []
      && forall c: nat :: c in books.occup <==> ROOT_CLUS <= c < ROOT_CLUS + Used(LayoutRoot(t))
  {
    hide FatSectors, Covered, LayoutRoot, HoldsFat, RestFree, Good, Linked, DirWrites, Holds, MarkAll, Walks, Listing,
         WalkDir, Used, Tiled, FatOf, PartitionStart, ReadBpb;
    var root, fatSec := LayoutRoot(t), FatSectors(tot);
    CarriedIsGood(img, t, tot);
    BpbReadBack(img, tot, fatSec);
    WalkReads(img, tot, fatSec, FatOf(root), root, 0, ROOT_CLUS, 0, {}, [], fuel);
    BooksOfTree(root, ROOT_CLUS);
  }

  /** The round trip. On an image that carries a covered tree, the reader also gives
      back the tree itself, file contents included. */
  lemma InspectUndoesCreate(img: Bytes, t: Tree, tot: nat, fuel: nat)
    requires Covered(t) && Linked(LayoutRoot(t), 0)
    requires Represents(img, LayoutRoot(t), tot, FatSectors(tot))
    requires Used(LayoutRoot(t)) <= fuel
    ensures var root, g := LayoutRoot(t), TheGeo(tot, FatSectors(tot));
      && root.DirItem?
      && PartitionStart(img) == 0 && ReadBpb(img, 0) == Ok(g)
      && InspectReport(img, fuel) == Ok(Report(Listing(root, 0, 0), Walks(root, [])))
      && ReadTree(img, g, g.root, {}, fuel) == Ok(t.children)
    ensures var books := MarkAll(NOTHING, Flat(Walks(LayoutRoot(t), [])));
      && books.conflicts == []
      && forall c: nat :: c in books.occup <==> ROOT_CLUS <= c < ROOT_CLUS + Used(LayoutRoot(t))
  {
    hide FatSectors, Covered, LayoutRoot, Good, Linked, MarkAll, Walks, Listing, InspectReport, ReadTree, Used, Tiled,
         FatOf, PartitionStart, ReadBpb, Represents, CarriesDirectories, AllWrites, FileWrites, FilesHold, FilesInside;
    var root, fatSec := LayoutRoot(t), FatSectors(tot);
    RepresentedIsGood(img, t, tot);
    ListingUndoesCreate(img, t, tot, fuel);
    CarriedIsGood(img, t, tot);
    TreeReads(img, tot, fatSec, FatOf(root), root, 0, ROOT_CLUS, {}, fuel);
  }

  /** Where the directories land, the tree comes back with all file contents exactly
      when every write lands: a file whose write misses comes back too short. */
  lemma ContentsIff(img: Bytes, t: Tree, tot: nat, fuel: nat)
    requires Covered(t) && Linked(LayoutRoot(t), 0) && MadeImage(img, LayoutRoot(t), tot, FatSectors(tot))
    requires Lands(tot * 512 + 2, DirWrites(LayoutRoot(t), 0, FatSectors(tot))) && Used(LayoutRoot(t)) <= fuel
    ensures ReadTree(img, TheGeo(tot, FatSectors(tot)), ROOT_CLUS, {}, fuel) == Ok(t.children)
            <==> Lands(tot * 512 + 2, AllWrites(LayoutRoot(t), FatSectors(tot)))
  {
    hide FatSectors, Covered, LayoutRoot, Good, Linked, ReadTree, Used, Tiled, FatOf, Represents, CarriesDirectories,
         AllWrites, DirWrites, FileWrites, FilesHold, FilesInside, Lands, End, LenAll, Formatted, FinalLength;
    var root, fatSec := LayoutRoot(t), FatSectors(tot);
    CarriedIsGood(img, t, tot);
    TreeReads(img, tot, fatSec, FatOf(root), root, 0, ROOT_CLUS, {}, fuel);
    if Lands(tot * 512 + 2, AllWrites(root, fatSec)) {
      RepresentedIsGood(img, t, tot);
    }
    if FilesInside(img, FileWrites(root, fatSec)) {
      EndOfTree(img, root, tot, fatSec);
    }
  }

  lemma EndOfTree(img: Bytes, root: Item, tot: nat, fatSec: nat)
    requires Linked(root, 0) && CarriesDirectories(img, root, tot, fatSec)
    requires FilesInside(img, FileWrites(root, fatSec))
    ensures End(AllWrites(root, fatSec)) <= |img|
  {
    hide Formatted, DirWrites, FileWrites, Linked, FatOf, End;
    EndInside(|img|, AllWrites(root, fatSec));
  }

  /** The same image behind a partition table lists the same tree. */
  lemma PartitionedImageListed(mbr: Bytes, img: Bytes, t: Tree, tot: nat, fuel: nat)
    requires IsTable(mbr) && Covered(t) && Linked(LayoutRoot(t), 0)
    requires CarriesDirectories(img, LayoutRoot(t), tot, FatSectors(tot))
    requires Used(LayoutRoot(t)) <= fuel
    ensures LayoutRoot(t).DirItem?
    ensures InspectReport(mbr + img, fuel) == Ok(Report(Listing(LayoutRoot(t), 0, 0), Walks(LayoutRoot(t), [])))
  {
    hide FatSectors, Covered, LayoutRoot, CarriesDirectories, Linked, Walks, Listing, InspectReport, Used, IsTable,
         PartitionStart, ReadBpb, MarkAll;
    ListingUndoesCreate(img, t, tot, fuel);
    PartitionReads(mbr, img, fuel);
  }

  // ---- when every write lands ----

  /** One spare cluster per directory is enough: the FAT holds the tree, every write
      lands, and the image is shorter by exactly the directories' shortfall. */
  lemma {:induction false} SpareClustersSuffice(t: Tree, tot: nat)
    requires t.Dir? && TreeWritable(t) && GoodSize(tot) && Linked(LayoutRoot(t), 0)
    requires Used(LayoutRoot(t)) + Dirs(LayoutRoot(t)) <= ClusterCount(tot)
    ensures Lands(tot * 512 + 2, AllWrites(LayoutRoot(t), FatSectors(tot)))
    ensures 4 * (ROOT_CLUS + Used(LayoutRoot(t))) <= FatSectors(tot) * 512
    ensures FinalLength(LayoutRoot(t), tot, FatSectors(tot)) == tot * 512 + 2 - Shortfall(LayoutRoot(t), 0)
  {
    hide TreeWritable, LayoutRoot, LayoutOne, Linked, Tiled, Used, Dirs, AllWrites, Lands, FatOf, FatSectors,
         ClusterCount, DirWritable, Shortfall, ApplyAll, Links;
    LayoutReady(t);
    Sizes(tot);
    SpareClustersLand(LayoutRoot(t), FatSectors(tot), ClusterCount(tot), Zeros(tot * 512 + 2));
  }

  const BIG := 65655 * CLUSTER + 1

  /** A root with an empty directory, a file of `BIG` bytes and a file of one byte. */
  function CrowdedTree(): Tree { Dir([], [Dir([65], []), File([66], Zeros(BIG)), File([67], [1])]) }

  function CrowdedItem(): Item {
    DirItem([], [DirItem([65], [], 3, 2, 1), FileItem([66], Zeros(BIG), 4), FileItem([67], [1], 65660)], 2, 0, 1)
  }

  lemma LayoutCons(t: Tree, rest: seq<Tree>, parent: nat, next: nat)
    ensures var (one, n) := LayoutOne(t, parent, next);
      var (more, l) := LayoutList(rest, parent, n);
      LayoutList([t] + rest, parent, next) == ([one] + more, l)
  {
    hide LayoutOne;
    assert ([t] + rest)[1..] == rest;
  }

  lemma LayoutThree(a: Tree, b: Tree, c: Tree, parent: nat, next: nat)
    ensures var (i, n) := LayoutOne(a, parent, next);
      var (j, m) := LayoutOne(b, parent, n);
      var (k, l) := LayoutOne(c, parent, m);
      LayoutList([a, b, c], parent, next) == ([i, j, k], l)
  {
    hide LayoutOne;
    var (i, n) := LayoutOne(a, parent, next);
    var (j, m) := LayoutOne(b, parent, n);
    var k := LayoutOne(c, parent, m).0;
    assert [a] + [b, c] == [a, b, c] && [b] + [c] == [b, c] && [c] + [] == [c];
    LayoutCons(c, [], parent, m);
    LayoutCons(b, [c], parent, n);
    LayoutCons(a, [b, c], parent, next);
    assert [k] + [] == [k] && [j] + [k] == [j, k] && [i] + [j, k] == [i, j, k];
  }

  lemma FileWritable(t: Tree)
    ensures t.File? ==> TreeWritable(t)
  {}

  lemma WritableDir(name: Text, ts: seq<Tree>)
    requires ShortNamed(ts) && forall i :: 0 <= i < |ts| ==> TreeWritable(ts[i])
    ensures TreeWritable(Dir(name, ts))
  {
    hide DirWritable, DirSize, DirClusters, ShortNamed;
    OneClusterDir(ts, 0);
  }

  lemma CrowdedLayout()
    ensures LayoutRoot(CrowdedTree()) == CrowdedItem() && TreeWritable(CrowdedTree())
  {
    hide DirClusters, DirWritable, Zeros, LayoutList, ShortNamed, ClustersFor, TreeWritable;
    BigClusters();
    var sub, big, last := Dir([65], []), File([66], Zeros(BIG)), File([67], [1]);
    CrowdedNames();
    OneClusterDir([], 2);
    OneClusterDir([sub, big, last], 0);
    FileWritable(big);
    FileWritable(last);
    WritableDir([65], []);
    WritableDir([], [sub, big, last]);
    LayoutNone();
    assert LayoutOne(sub, 2, 3) == (DirItem([65], [], 3, 2, 1), 4);
    assert LayoutOne(big, 2, 4) == (FileItem([66], Zeros(BIG), 4), 65660);
    assert LayoutOne(last, 2, 65660) == (FileItem([67], [1], 65660), 65661);
    LayoutThree(sub, big, last, 2, 3);
  }

  lemma BigClusters()
    ensures ClustersFor(BIG) == 65656 && ClustersFor(1) == 1
  {}

  lemma LayoutNone()
    ensures LayoutList([], 3, 4) == ([], 4)
  {}

  lemma CrowdedNames()
    ensures ShortNamed([]) && ShortNamed([Dir([65], []), File([66], Zeros(BIG)), File([67], [1])])
  {}

  /** The writes of that tree: two directory clusters, each far from full, then the
      two files. */
  lemma CrowdedWrites() returns (ws: seq<Write>)
    requires Linked(CrowdedItem(), 0)
    ensures ws == AllWrites(CrowdedItem(), 514) && |ws| == 4 && ws[..2] == DirWrites(CrowdedItem(), 0, 514)
    ensures ws[0].off == 542720 && ws[0].room == CLUSTER && |ws[0].bytes| <= 257
    ensures ws[1].off == 546816 && ws[1].room == CLUSTER && |ws[1].bytes| <= 257
    ensures ws[2].off == 550912 && ws[2].room == |ws[2].bytes| == BIG
    ensures ws[3].off == 269477888 && |ws[3].bytes| == 1
  {
    hide ItemBytes, ClusterWrite, Zeros, DirWritable, DirClusters, Off;
    CrowdedPlaces();
    var item := CrowdedItem();
    var sub := item.children[0];
    var one, two := Slices(ItemBytes(item), Off(514, 2), 1), Slices(ItemBytes(sub), Off(514, 3), 1);
    CrowdedBytes();
    assert DirWrites(sub, 2, 514) == two;
    var kids := item.children;
    assert DirWritesList(kids[2..], 2, 514) == [] by { assert kids[2..][1..] == []; }
    assert DirWritesList(kids[1..], 2, 514) == [] by { assert kids[1..][1..] == kids[2..]; }
    assert DirWritesList(kids, 2, 514) == two;
    var files := [Write(Off(514, 4), BIG, Zeros(BIG)), Write(Off(514, 65660), 1, [1])];
    assert FileWritesList(item.children[2..], 514) == [files[1]] by { assert item.children[2..][1..] == []; }
    assert FileWritesList(item.children[1..], 514) == files by { assert item.children[1..][1..] == item.children[2..]; }
    assert FileWritesList(item.children, 514) == files;
    ws := one + two + files;
    assert ws[..2] == one + two;
    assert ws[0] == ClusterWrite(ItemBytes(item), Off(514, 2), 0);
    assert ws[1] == ClusterWrite(ItemBytes(sub), Off(514, 3), 0);
    FirstCluster(ItemBytes(item), Off(514, 2));
    FirstCluster(ItemBytes(sub), Off(514, 3));
  }

  lemma CrowdedPlaces()
    ensures Off(514, 2) == 542720 && Off(514, 3) == 546816 && Off(514, 4) == 550912 && Off(514, 65660) == 269477888
  {}

  lemma FirstCluster(bytes: Bytes, off: nat)
    ensures var w := ClusterWrite(bytes, off, 0); w.off == off && w.room == CLUSTER && |w.bytes| <= |bytes|
  {}

  lemma CrowdedBytes()
    requires Linked(CrowdedItem(), 0)
    ensures DirWritable(ItemStubs(CrowdedItem().children)) && |ItemBytes(CrowdedItem())| <= 257
    ensures Linked(CrowdedItem().children[0], 2)
    ensures DirWritable(ItemStubs(CrowdedItem().children[0].children)) && |ItemBytes(CrowdedItem().children[0])| <= 257
  {
    hide DirBytes, DirSize, DirClusters, DirWritable, Zeros, ShortNamed;
    CrowdedNames();
    SmallBytes(ItemStubs(CrowdedItem().children), CrowdedTree().children, 2, 0);
    SmallBytes(ItemStubs([]), [], 3, 2);
  }

  lemma SmallBytes(cs: seq<Stub>, ts: seq<Tree>, first: nat, parent: nat)
    requires ShortNamed(ts) && SameNames(cs, TreeStubs(ts))
    ensures DirWritable(cs) && |DirBytes(cs, first, parent)| <= 64 * |ts| + 65
  {
    hide DirBytes, DirSize, DirClusters, DirWritable, ShortNamed;
    OneClusterDir(ts, parent);
    SameNamesAgree(cs, TreeStubs(ts), parent);
    assert NamesOf(cs) == NamesOf(TreeStubs(ts));
    DirBytesSize(cs, first, parent);
  }

  /** Fitting is not enough. A tree of one empty directory, a file that barely enters
      its last cluster and a one-byte file fills a 257 MB volume to the last cluster;
      the two directories shrink the image, and the last file's write does not land. */
  lemma FittingIsNotEnough()
    ensures var t, tot := CrowdedTree(), 257 * 2048;
      && Covered(t) && GoodSize(tot) && Linked(LayoutRoot(t), 0)
      && Used(LayoutRoot(t)) == ClusterCount(tot) && 4 * (ROOT_CLUS + Used(LayoutRoot(t))) <= FatSectors(tot) * 512
      && !Lands(tot * 512 + 2, AllWrites(LayoutRoot(t), FatSectors(tot)))
  {
    assert FatSectors(257 * 2048) == 514 && ClusterCount(257 * 2048) == 65659;
    CrowdedLayout();
    CrowdedSize();
    LayoutReady(CrowdedTree());
    var ws := CrowdedWrites();
    MissesLast(ws);
  }

  lemma CrowdedSize()
    ensures Used(CrowdedItem()) == 65659 && LegalTree(CrowdedTree())
  {
    hide Zeros, ClustersFor;
    var kids := CrowdedItem().children;
    BigClusters();
    assert UsedBy(kids[2..]) == 1 by { assert kids[2..][1..] == []; }
    assert UsedBy(kids[1..]) == 65657 by { assert kids[1..][1..] == kids[2..]; }
    assert UsedBy(kids) == 65658;
  }

  lemma MissesLast(ws: seq<Write>)
    requires |ws| == 4
    requires ws[0].off == 542720 && ws[0].room == CLUSTER && |ws[0].bytes| <= 257
    requires ws[1].off == 546816 && ws[1].room == CLUSTER && |ws[1].bytes| <= 257
    requires ws[2].off == 550912 && ws[2].room == |ws[2].bytes| == BIG
    requires ws[3].off == 269477888 && |ws[3].bytes| == 1
    ensures !Lands(257 * 2048 * 512 + 2, ws) && LenAll(257 * 2048 * 512 + 2, ws) < 269477888
  {
    var l1 := LenAfter(257 * 2048 * 512 + 2, ws[0]);
    var l2 := LenAfter(l1, ws[1]);
    var l3 := LenAfter(l2, ws[2]);
    assert l3 < ws[3].off && LenAfter(l3, ws[3]) == l3 + 1;
    assert ws[1..][0] == ws[1] && ws[1..][1..] == ws[2..] && ws[2..][0] == ws[2] && ws[2..][1..] == ws[3..];
    assert ws[3..][0] == ws[3] && ws[3..][1..] == [];
    assert LenAll(l3, ws[3..]) == l3 + 1;
    assert LenAll(l2, ws[2..]) == LenAll(l3, ws[3..]);
    assert LenAll(l1, ws[1..]) == LenAll(l2, ws[2..]);
    assert !Lands(l3, ws[3..]);
    assert !Lands(l2, ws[2..]);
    assert !Lands(l1, ws[1..]);
  }

  predicate ShortNamed(ts: seq<Tree>) {
    && |ts| <= 9
    && forall i :: 0 <= i < |ts| ==>
         1 <= |ts[i].name| <= 13 && NoSurrogate(ts[i].name) && TreeStub(ts[i]).size < 0x1_0000_0000
  }

  /** Up to nine short names need one cluster, of which at most 641 bytes are used. */
  lemma OneClusterDir(ts: seq<Tree>, parent: nat)
    requires ShortNamed(ts)
    ensures DirWritable(TreeStubs(ts)) && DirSize(NamesOf(TreeStubs(ts)), parent != 0) <= 64 * |ts| + 65
    ensures DirClusters(TreeStubs(ts), parent) == 1
  {
    hide ClustersFor;
    var names := NamesOf(TreeStubs(ts));
    SmallDirectory(names, {});
    FewRecords(names, AssignShorts(names, {}).value);
    OneCluster(DirSize(names, parent != 0));
  }

  lemma {:induction false} FewRecords(names: seq<Text>, shorts: seq<Bytes>)
    requires |names| == |shorts| && forall i :: 0 <= i < |shorts| ==> |shorts[i]| == 11
    requires forall i :: 0 <= i < |names| ==> |names[i]| <= 13
    ensures RecordCount(names, shorts) <= 2 * |names|
    decreases |names|
  {
    if names != [] { FewRecords(names[1..], shorts[1..]); }
  }

  /** What becomes of that tree. `inspect` prints all of it and reports no conflict,
      while its last file, one byte long, comes back empty. */
  lemma CrowdedOutcome(img: Bytes, fuel: nat)
    requires Linked(CrowdedItem(), 0) && MadeImage(img, CrowdedItem(), 257 * 2048, 514) && 65659 <= fuel
    ensures LayoutRoot(CrowdedTree()) == CrowdedItem()
    ensures InspectReport(img, fuel) == Ok(Report(Listing(CrowdedItem(), 0, 0), Walks(CrowdedItem(), [])))
    ensures MarkAll(NOTHING, Flat(Walks(CrowdedItem(), []))).conflicts == []
    ensures var g := TheGeo(257 * 2048, 514);
      && ReadTree(img, g, ROOT_CLUS, {}, fuel) != Ok(CrowdedTree().children)
      && ReadFile(img, g, 65660, 1) == Ok([])
  {
    hide Zeros, TreeWritable, AllWrites, DirWrites, Lands, End, Shortfall, LayoutOne, LayoutRoot, LegalTree, Used,
         Linked, LenAll, Formatted, Represents, CarriesDirectories, FinalLength, InspectReport, ReadTree, Listing,
         Walks, MarkAll, ReadFile;
    assert FatSectors(257 * 2048) == 514;
    CrowdedLayout();
    CrowdedSize();
    var ws := CrowdedWrites();
    MissesLast(ws);
    CrowdedDirsLand(ws);
    MadeListing(img, CrowdedTree(), 257 * 2048, fuel);
    CarriedIsGood(img, CrowdedTree(), 257 * 2048);
    LastFileEmpty(img);
  }

  lemma CrowdedDirsLand(ws: seq<Write>)
    requires |ws| == 4
    requires ws[0].off == 542720 && ws[0].room == CLUSTER && |ws[0].bytes| <= 257
    requires ws[1].off == 546816
    ensures Lands(257 * 2048 * 512 + 2, ws[..2])
  {
    var len, ds := 257 * 2048 * 512 + 2, ws[..2];
    assert ds[1..][0] == ws[1] && ds[1..][1..] == [];
    assert Lands(LenAfter(len, ds[0]), ds[1..]);
  }

  /** The image ends before the last file's cluster begins. */
  lemma LastFileEmpty(img: Bytes)
    requires Linked(CrowdedItem(), 0) && |img| <= 269477888
    requires Good(img, 514, FatOf(CrowdedItem()), CrowdedItem(), 0, ROOT_CLUS)
    ensures ReadFile(img, TheGeo(257 * 2048, 514), 65660, 1) == Ok([])
  {
    hide Good, GoodList, Zeros, FatOf, ReadFile, Linked, Off;
    var item, fat := CrowdedItem(), FatOf(CrowdedItem());
    var kids := item.children;
    GoodChildren(img, 514, fat, item, 0, ROOT_CLUS);
    GoodHead(img, 514, fat, kids, 2, 3);
    assert Used(kids[0]) == 1 && kids[1..][0] == kids[1] && kids[1..][1..] == kids[2..] && kids[2..][0] == kids[2];
    GoodHead(img, 514, fat, kids[1..], 2, 4);
    assert Used(kids[1]) == 65656;
    GoodHead(img, 514, fat, kids[2..], 2, 65660);
    FileBounded(img, 257 * 2048, 514, fat, kids[2], 2, 65660);
    CrowdedPlaces();
  }

  // ---- the nominal length ----

  const FULL := 65914 * CLUSTER

  /** A root with one file that ends at the last byte of a 258 MB volume. */
  function FullTree(): Tree { Dir([], [File([65], Zeros(FULL))]) }

  function FullItem(): Item { DirItem([], [FileItem([65], Zeros(FULL), 3)], 2, 0, 1) }

  lemma FullLayout()
    ensures LayoutRoot(FullTree()) == FullItem() && TreeWritable(FullTree())
    ensures Used(FullItem()) == 65915 && LegalTree(FullTree())
  {
    hide DirClusters, DirWritable, Zeros, LayoutList, ShortNamed, TreeWritable;
    var file := File([65], Zeros(FULL));
    FullNames();
    OneClusterDir([file], 0);
    FileWritable(file);
    WritableDir([], [file]);
    assert LayoutOne(file, 2, 3) == (FileItem([65], Zeros(FULL), 3), 65917);
    LayoutSingle(file, 2, 3);
    FullSize();
  }

  lemma FullNames()
    ensures ShortNamed([File([65], Zeros(FULL))])
  {}

  lemma FullSize()
    ensures Used(FullItem()) == 65915 && LegalTree(FullTree())
  {
    hide Zeros;
    var kids := FullItem().children;
    assert ClustersFor(FULL) == 65914;
    assert UsedBy(kids) == 65914 by { assert kids[1..] == []; }
  }

  lemma LayoutSingle(t: Tree, parent: nat, next: nat)
    ensures var (i, n) := LayoutOne(t, parent, next); LayoutList([t], parent, next) == ([i], n)
  {
    hide LayoutOne;
    LayoutCons(t, [], parent, next);
    assert [t] + [] == [t] && [LayoutOne(t, parent, next).0] + [] == [LayoutOne(t, parent, next).0];
  }

  /** Its writes: one directory cluster, far from full, and the file. */
  lemma FullWrites() returns (ws: seq<Write>)
    requires Linked(FullItem(), 0)
    ensures ws == AllWrites(FullItem(), 516) && |ws| == 2
    ensures ws[0].off == 544768 && ws[0].room == CLUSTER && |ws[0].bytes| <= 129
    ensures ws[1].off == 548864 && ws[1].room == |ws[1].bytes| == FULL
  {
    hide ItemBytes, ClusterWrite, Zeros, DirWritable, DirClusters;
    var item := FullItem();
    var kids := item.children;
    FullBytes();
    var own, file := Slices(ItemBytes(item), Off(516, 2), 1), Write(Off(516, 3), FULL, Zeros(FULL));
    assert kids[1..] == [];
    assert DirWritesList(kids, 2, 516) == [];
    assert FileWritesList(kids, 516) == [file];
    ws := own + [file];
    assert ws[0] == ClusterWrite(ItemBytes(item), Off(516, 2), 0);
    FirstCluster(ItemBytes(item), Off(516, 2));
  }

  lemma FullBytes()
    requires Linked(FullItem(), 0)
    ensures DirWritable(ItemStubs(FullItem().children)) && |ItemBytes(FullItem())| <= 129
  {
    hide DirBytes, DirSize, DirClusters, DirWritable, Zeros, ShortNamed;
    FullNames();
    SmallBytes(ItemStubs(FullItem().children), FullTree().children, 2, 0);
  }

  lemma FullLands(ws: seq<Write>)
    requires |ws| == 2
    requires ws[0].off == 544768 && ws[0].room == CLUSTER && |ws[0].bytes| <= 129
    requires ws[1].off == 548864 && ws[1].room == |ws[1].bytes| == FULL
    ensures Lands(258 * 2048 * 512 + 2, ws) && End(ws) == 258 * 2048 * 512
  {
    assert ws[1..][0] == ws[1] && ws[1..][1..] == [];
    assert End(ws[1..]) == 548864 + FULL;
  }

  /** The nominal length is possible after all: a tree whose last file ends at the last
      byte of the volume lands, and its image has exactly `tot * 512` bytes. */
  lemma NominalLengthReached()
    ensures var t, tot := FullTree(), 258 * 2048;
      && Covered(t) && GoodSize(tot) && Linked(LayoutRoot(t), 0)
      && Used(LayoutRoot(t)) == ClusterCount(tot) && 4 * (ROOT_CLUS + Used(LayoutRoot(t))) <= FatSectors(tot) * 512
      && Lands(tot * 512 + 2, AllWrites(LayoutRoot(t), FatSectors(tot)))
      && FinalLength(LayoutRoot(t), tot, FatSectors(tot)) == tot * 512
  {
    hide Zeros, TreeWritable, AllWrites, Lands, End, Shortfall, LayoutOne, LayoutRoot, LegalTree, Used, Linked;
    assert FatSectors(258 * 2048) == 516 && ClusterCount(258 * 2048) == 65915;
    FullLayout();
    LayoutReady(FullTree());
    var ws := FullWrites();
    FullLands(ws);
    NominalLengthIff(FullItem(), 258 * 2048, 516);
  }

  // ---- the two commands, one after the other ----

  /** `create`, then `inspect` on its output. On every covered tree whose directories
      land, the listing is the tree's and the conflict list is empty, and the tree
      itself comes back with all contents exactly when every write lands. */
  method CreateThenInspect(root: Node, sizeMb: int, fuel: nat)
    returns (img: Option<Bytes>, seen: Result<Summary>)
    requires root.Valid() && root.isDir
    modifies root.repr
    ensures var t, item, tot := root.tree, LayoutRoot(root.tree), sizeMb * 2048;
      GoodSize(tot) && Covered(t) && 4 * (ROOT_CLUS + Used(item)) <= FatSectors(tot) * 512 ==>
        && Linked(item, 0) && item.DirItem? && img.Some? && MadeImage(img.value, item, tot, FatSectors(tot))
        && (Used(item) <= fuel && Lands(tot * 512 + 2, DirWrites(item, 0, FatSectors(tot))) ==>
              && seen == Ok(Summary(Listing(item, 0, 0), MarkAll(NOTHING, Flat(Walks(item, [])))))
              && seen.value.books.conflicts == []
              && (ReadTree(img.value, TheGeo(tot, FatSectors(tot)), ROOT_CLUS, {}, fuel) == Ok(t.children)
                  <==> Lands(tot * 512 + 2, AllWrites(item, FatSectors(tot)))))
  {
    hide FatSectors, ClusterCount, LayoutRoot, TreeWritable, LegalTree, Linked, Node.Valid, Node.Is, Lands, AllWrites,
         DirWrites, Used, InspectReport, ReadTree, MarkAll, FatOf, Listing, Walks, Tiled, Links, MadeImage;
    img := Create(root, sizeMb);
    if img.None? {
      return None, Raised;
    }
    seen := InspectImage(img.value, fuel);
    ghost var t, tot := root.tree, sizeMb * 2048;
    if GoodSize(tot) && Covered(t) {
      CoveredRoot(t);
      if Used(LayoutRoot(t)) <= fuel && Lands(tot * 512 + 2, DirWrites(LayoutRoot(t), 0, FatSectors(tot))) {
        MadeListing(img.value, t, tot, fuel);
      }
    }
  }

  lemma CoveredRoot(t: Tree)
    requires Covered(t)
    ensures LayoutRoot(t).DirItem? && Linked(LayoutRoot(t), 0)
  {
    hide TreeWritable, LayoutRoot, Linked;
    LayoutReady(t);
  }

  lemma MadeListing(img: Bytes, t: Tree, tot: nat, fuel: nat)
    requires Covered(t) && Linked(LayoutRoot(t), 0) && MadeImage(img, LayoutRoot(t), tot, FatSectors(tot))
    requires Lands(tot * 512 + 2, DirWrites(LayoutRoot(t), 0, FatSectors(tot))) && Used(LayoutRoot(t)) <= fuel
    ensures LayoutRoot(t).DirItem?
    ensures InspectReport(img, fuel) == Ok(Report(Listing(LayoutRoot(t), 0, 0), Walks(LayoutRoot(t), [])))
    ensures MarkAll(NOTHING, Flat(Walks(LayoutRoot(t), []))).conflicts == []
    ensures ReadTree(img, TheGeo(tot, FatSectors(tot)), ROOT_CLUS, {}, fuel) == Ok(t.children)
            <==> Lands(tot * 512 + 2, AllWrites(LayoutRoot(t), FatSectors(tot)))
  {
    hide FatSectors, Covered, LayoutRoot, Linked, ReadTree, InspectReport, Used, Represents, CarriesDirectories,
         AllWrites, DirWrites, Lands, End, LenAll, Formatted, FinalLength, MarkAll, Listing, Walks;
    ListingUndoesCreate(img, t, tot, fuel);
    ContentsIff(img, t, tot, fuel);
  }
}
