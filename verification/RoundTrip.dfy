/** The whole program: what `inspect` says of an image that `create` made, and the
    tree, file contents included, that can be read back from it. */
module RoundTrip {
  import opened ByteStrings
  import opened Results
  import opened ShortNames
  import opened Geometry
  import opened Directory
  import opened Layout
  import opened Splices
  import opened Schedule
  import opened FormatImage
  import opened Inspect
  import opened Occupancy
  import opened ReadBack

  /** Part of a laid-out tree, in an image that holds its directory bytes and its
      chains. */
  ghost predicate Good(img: Bytes, fatSec: nat, fat: map<nat, nat>, t: Item, parent: nat, lo: nat) {
    && Linked(t, parent) && Tiled(t, lo) && LegalItem(t) && Chained(fat, t)
    && ROOT_CLUS <= lo && lo + Used(t) <= EOC_MIN && parent < lo && HoldsFat(img, FAT_START, fat)
    && forall w :: w in DirWrites(t, parent, fatSec) ==> Holds(img, w)
  }

  ghost predicate GoodList(img: Bytes, fatSec: nat, fat: map<nat, nat>, ts: seq<Item>, parent: nat, lo: nat) {
    && (forall i :: 0 <= i < |ts| ==> Linked(ts[i], parent) && LegalItem(ts[i]) && Chained(fat, ts[i]))
    && TiledList(ts, lo)
    && ROOT_CLUS <= lo && lo + UsedBy(ts) <= EOC_MIN && parent < lo && HoldsFat(img, FAT_START, fat)
    && forall w :: w in DirWritesList(ts, parent, fatSec) ==> Holds(img, w)
  }

  lemma GoodHead(img: Bytes, fatSec: nat, fat: map<nat, nat>, ts: seq<Item>, parent: nat, lo: nat)
    requires ts != [] && GoodList(img, fatSec, fat, ts, parent, lo)
    ensures Good(img, fatSec, fat, ts[0], parent, lo)
    ensures GoodList(img, fatSec, fat, ts[1..], parent, lo + Used(ts[0])) && UsedBy(ts) == Used(ts[0]) + UsedBy(ts[1..])
  {
    hide Linked, LegalItem, Chained, Tiled, Used, HoldsFat, DirWrites, Holds;
  }

  lemma EachLinked(img: Bytes, fatSec: nat, fat: map<nat, nat>, ts: seq<Item>, parent: nat, lo: nat)
    requires GoodList(img, fatSec, fat, ts, parent, lo)
    ensures forall i :: 0 <= i < |ts| ==> Linked(ts[i], parent)
  {}

  lemma GoodChildren(img: Bytes, fatSec: nat, fat: map<nat, nat>, t: Item, parent: nat, lo: nat)
    requires t.DirItem? && Good(img, fatSec, fat, t, parent, lo)
    ensures Linked(t, parent) && t.first == lo && Used(t) == t.clusters + UsedBy(t.children) && t.clusters >= 1
    ensures GoodList(img, fatSec, fat, t.children, t.first, lo + t.clusters)
  {
    hide DirWritable, DirClusters, DirWrites, HoldsFat, Holds, DirWritesList, ItemBytes, ClusterWrite;
    WritesHold(img, t, parent, fatSec);
  }

  /** A directory of such a tree reads back. */
  lemma GoodDirReads(img: Bytes, tot: nat, fatSec: nat, fat: map<nat, nat>, t: Item, parent: nat, lo: nat,
                     visited: set<nat>, fuel: nat)
    requires t.DirItem? && Good(img, fatSec, fat, t, parent, lo) && Used(t) <= fuel
    requires forall v :: v in visited ==> v < lo
    ensures Linked(t, parent)
    ensures var r := ReadDir(img, TheGeo(tot, fatSec), t.first, visited + {t.first}, [], [], [], fuel);
      && r.Ok? && r.value.0 == Chain(t.first, t.clusters)
      && Shown(r.value.1) == EntriesOf(ItemStubs(t.children), ShortsOf(t, parent))
  {
    hide GoodList, ReadDir, ShortsOf, EntriesOf, HoldsFat, Holds, ChainIn, ItemStubs, Linked, Tiled, LegalItem, Shown,
         DirWrites, Used;
    GoodChildren(img, fatSec, fat, t, parent, lo);
    DirReads(img, tot, fatSec, fat, t, parent, lo, visited + {t.first}, fuel);
  }

  /** The entry list of some items, first and rest. */
  lemma EntriesTail(ts: seq<Item>, shorts: seq<Bytes>)
    requires Eleven(ts, shorts)
    ensures ts == [] ==> EntriesOf(ItemStubs(ts), shorts) == []
    ensures ts != [] ==>
      var es := EntriesOf(ItemStubs(ts), shorts);
      es[0] == EntryOf(ItemStub(ts[0]), shorts[0]) && es[1..] == EntriesOf(ItemStubs(ts[1..]), shorts[1..])
  {
    if ts != [] { assert ItemStubs(ts)[1..] == ItemStubs(ts[1..]); }
  }

  predicate Eleven(ts: seq<Item>, shorts: seq<Bytes>) {
    |ts| == |shorts| && forall i :: 0 <= i < |shorts| ==> |shorts[i]| == 11
  }

  // ---- the listing ----

  /** Walking a directory of the tree reports it, and everything below it. */
  lemma {:induction false} WalkReads(img: Bytes, tot: nat, fatSec: nat, fat: map<nat, nat>, t: Item, parent: nat,
                                     lo: nat, depth: nat, visited: set<nat>, path: Text, fuel: nat)
    requires t.DirItem? && Good(img, fatSec, fat, t, parent, lo) && Used(t) <= fuel
    requires forall v :: v in visited ==> v < lo
    ensures WalkDir(img, TheGeo(tot, fatSec), t.first, depth, visited, path, fuel)
            == Ok(Report(Listing(t, parent, depth), Walks(t, path)))
    decreases t, 0
  {
    hide Good, GoodList, Used, UsedBy, ReadDir, Shown, WalkEntries, ListingOf, WalksOf, ShortsOf, EntriesOf, ItemStubs,
         Linked;
    GoodChildren(img, fatSec, fat, t, parent, lo);
    GoodDirReads(img, tot, fatSec, fat, t, parent, lo, visited, fuel);
    WalkListReads(img, tot, fatSec, fat, t.children, ShortsOf(t, parent), t.first, lo + t.clusters, depth + 1,
                  visited + {t.first}, path, fuel - 1);
  }

  /** Walking the entries of some items reports each of them in turn. */
  lemma {:induction false} WalkListReads(img: Bytes, tot: nat, fatSec: nat, fat: map<nat, nat>, ts: seq<Item>,
                                         shorts: seq<Bytes>, parent: nat, lo: nat, depth: nat, visited: set<nat>,
                                         path: Text, fuel: nat)
    requires Eleven(ts, shorts) && GoodList(img, fatSec, fat, ts, parent, lo) && UsedBy(ts) <= fuel
    requires forall v :: v in visited ==> v < lo
    ensures WalkEntries(img, TheGeo(tot, fatSec), EntriesOf(ItemStubs(ts), shorts), depth, visited, path, fuel)
            == Ok(Report(ListingOf(ts, shorts, parent, depth), WalksOf(ts, path)))
    decreases ts, 1
  {
    hide EntriesOf, ItemStubs, EntryOf, ItemStub, Good, GoodList, Linked, Used, UsedBy, Listing, Walks, WalkEntry,
         ItemLine;
    EntriesTail(ts, shorts);
    EachLinked(img, fatSec, fat, ts, parent, lo);
    if ts != [] {
      GoodHead(img, fatSec, fat, ts, parent, lo);
      WalkOneReads(img, tot, fatSec, fat, ts[0], shorts[0], parent, lo, depth, visited, path, fuel);
      WalkListReads(img, tot, fatSec, fat, ts[1..], shorts[1..], parent, lo + Used(ts[0]), depth, visited, path, fuel);
    }
  }

  lemma {:induction false} WalkOneReads(img: Bytes, tot: nat, fatSec: nat, fat: map<nat, nat>, t: Item, short: Bytes,
                                        parent: nat, lo: nat, depth: nat, visited: set<nat>, path: Text, fuel: nat)
    requires |short| == 11 && Good(img, fatSec, fat, t, parent, lo) && Used(t) <= fuel
    requires forall v :: v in visited ==> v < lo
    ensures Linked(t, parent)
    ensures WalkEntry(img, TheGeo(tot, fatSec), EntryOf(ItemStub(t), short), depth, visited, path, fuel)
            == Ok(Report([ItemLine(t, short, depth)]
                         + (if t.DirItem? then Listing(t, parent, depth) else []),
                         Walks(t, Below(path, t.name))))
    decreases t, 1
  {
    hide WalkDir, WalkChain, Listing, HoldsFat, Holds, Linked, DirWrites;
    if t.DirItem? {
      hide Walks;
      WalkReads(img, tot, fatSec, fat, t, parent, lo, depth, visited, Below(path, t.name), fuel);
    } else if t.data != [] {
      ChainReads(img, tot, fatSec, fat, t.first, ClustersFor(|t.data|), 0, {});
    } else {
      assert ItemStub(t).First() == 0;
    }
  }

  // ---- the claims ----

  function Clusters1(claims: seq<(nat, Claim)>): (r: seq<nat>)
    ensures |r| == |claims|
  {
    seq(|claims|, i requires 0 <= i < |claims| => claims[i].0)
  }

  lemma Clusters1Append(xs: seq<(nat, Claim)>, ys: seq<(nat, Claim)>)
    ensures Clusters1(xs + ys) == Clusters1(xs) + Clusters1(ys)
  {}

  lemma Clusters1One(chain: seq<nat>, what: Claim)
    ensures Clusters1(Flat([Walk(chain, what)])) == chain
  {
    FlatOne(Walk(chain, what));
  }

  /** The walk claims the clusters of the tree in allocation order. */
  lemma {:induction false} ClaimsInOrder(t: Item, path: Text)
    ensures Clusters1(Flat(Walks(t, path))) == ClustersOf(t)
    decreases t, 0
  {
    hide Flat, Clusters1, Chain;
    if t.DirItem? {
      var own := Walk(Chain(t.first, t.clusters), DirClaim(path));
      ClaimsInOrderList(t.children, path);
      Clusters1One(own.clusters, own.what);
      FlatAppend([own], WalksOf(t.children, path));
      Clusters1Append(Flat([own]), Flat(WalksOf(t.children, path)));
    } else {
      assert Chain(t.first, ClustersFor(|t.data|)) + [] == Chain(t.first, ClustersFor(|t.data|));
      NoClaims(t.first);
      if t.data != [] { Clusters1One(Chain(t.first, ClustersFor(|t.data|)), FileClaim(path)); }
    }
  }

  lemma NoClaims(first: nat)
    ensures Clusters1(Flat([])) == [] == Chain(first, ClustersFor(0))
  {}

  lemma {:induction false} ClaimsInOrderList(ts: seq<Item>, path: Text)
    ensures Clusters1(Flat(WalksOf(ts, path))) == ClustersOfList(ts)
    decreases ts, 1
  {
    hide Flat, Clusters1, Walks, ClustersOf;
    if ts == [] {
      NoClaims(0);
    } else {
      var one, rest := Walks(ts[0], Below(path, ts[0].name)), WalksOf(ts[1..], path);
      ClaimsInOrder(ts[0], Below(path, ts[0].name));
      ClaimsInOrderList(ts[1..], path);
      FlatAppend(one, rest);
      Clusters1Append(Flat(one), Flat(rest));
    }
  }

  /** Claims on consecutive clusters leave clean books over exactly those clusters. */
  lemma BooksOfRun(claims: seq<(nat, Claim)>, lo: nat)
    requires forall i :: 0 <= i < |claims| ==> claims[i].0 == lo + i
    ensures MarkAll(NOTHING, claims).conflicts == []
    ensures forall c: nat :: c in MarkAll(NOTHING, claims).occup <==> lo <= c < lo + |claims|
  {
    hide MarkAll, Reported, FirstClaim;
    ConflictFreeIffDistinct(claims);
    MarkAllAccounts(claims);
    forall c: nat
      ensures Claimed(claims, c) <==> lo <= c < lo + |claims|
    {
      if lo <= c < lo + |claims| { assert claims[c - lo].0 == c; }
    }
  }

  /** The walk over a laid-out tree finds no conflict, and claims every allocated
      cluster. */
  lemma BooksOfTree(t: Item, lo: nat)
    requires Tiled(t, lo)
    ensures MarkAll(NOTHING, Flat(Walks(t, []))).conflicts == []
    ensures forall c: nat :: c in MarkAll(NOTHING, Flat(Walks(t, []))).occup <==> lo <= c < lo + Used(t)
  {
    hide Walks, ClustersOf, MarkAll, Tiled, Used;
    var claims := Flat(Walks(t, []));
    ClaimsInOrder(t, []);
    ClustersOfTiled(t, lo);
    assert forall i :: 0 <= i < |claims| ==> claims[i].0 == Clusters1(claims)[i] == lo + i;
    BooksOfRun(claims, lo);
  }

  // ---- the tree itself, contents included ----

  function ReadClusters(img: Bytes, g: Geo, chain: seq<nat>): Bytes {
    if chain == [] then [] else ReadClus(img, g, chain[0]) + ReadClusters(img, g, chain[1..])
  }

  /** A file's contents: its chain, cluster by cluster, cut at its recorded size. */
  function ReadFile(img: Bytes, g: Geo, first: nat, size: nat): Result<Bytes> {
    if first < ROOT_CLUS then Ok([])
    else
      var chain :- WalkChain(img, g, first, {});
      Ok(Slice(ReadClusters(img, g, chain), 0, size))
  }

  /** The tree below a directory, by the walk of `walk_dir`. */
  function ReadTree(img: Bytes, g: Geo, c: nat, visited: set<nat>, fuel: nat): Result<seq<Tree>>
    decreases fuel, 0
  {
    if c in visited then Ok([])
    else if fuel == 0 then OutOfFuel
    else
      var dir :- ReadDir(img, g, c, visited + {c}, [], [], [], fuel);
      ReadEntries(img, g, Shown(dir.1), visited + {c}, fuel - 1)
  }

  function ReadEntries(img: Bytes, g: Geo, es: seq<Entry>, visited: set<nat>, fuel: nat): Result<seq<Tree>>
    decreases fuel, |es| + 2
  {
    if es == [] then Ok([])
    else
      var one :- ReadEntry(img, g, es[0], visited, fuel);
      var rest :- ReadEntries(img, g, es[1..], visited, fuel);
      Ok([one] + rest)
  }

  function ReadEntry(img: Bytes, g: Geo, e: Entry, visited: set<nat>, fuel: nat): Result<Tree>
    decreases fuel, 1
  {
    if e.isDir then
      var kids :- ReadTree(img, g, e.first, visited, fuel);
      Ok(Dir(e.name, kids))
    else
      var data :- ReadFile(img, g, e.first, e.size);
      Ok(File(e.name, data))
  }

  lemma ClusterHoldsData(img: Bytes, tot: nat, fatSec: nat, first: nat, data: Bytes, i: nat)
    requires ROOT_CLUS <= first && CLUSTER * i < |data| && Holds(img, Write(Off(fatSec, first), |data|, data))
    ensures var here, m := ReadClus(img, TheGeo(tot, fatSec), first + i), Min(CLUSTER, |data| - CLUSTER * i);
      m <= |here| && here[..m] == data[CLUSTER * i..CLUSTER * i + m]
  {
    hide ReadClus, Off, Slice;
    ClusterReads(img, tot, fatSec, first + i);
    OffPlus(fatSec, first, i);
    var at, m := Off(fatSec, first), Min(CLUSTER, |data| - CLUSTER * i);
    SlicePrefix(img, at + CLUSTER * i, at + CLUSTER * i + CLUSTER, m);
    DataPart(img, at, data, CLUSTER * i, m);
  }

  lemma DataPart(img: Bytes, at: nat, data: Bytes, i: nat, m: nat)
    requires at + |data| <= |img| && img[at..at + |data|] == data && i + m <= |data|
    ensures data[i..i + m] == img[at + i..at + i + m]
  {
    assert data[..|data|] == data;
    SubSlice(data, img, at, at + |data|, i, i + m);
  }

  lemma JoinParts(here: Bytes, rest: Bytes, data: Bytes, a: nat, b: nat)
    requires a <= b <= |data| && here == data[a..b] && |data| - b <= |rest| && rest[..|data| - b] == data[b..]
    ensures (here + rest)[..|data| - a] == data[a..]
  {
    assert (here + rest)[..|data| - a] == here + rest[..|data| - b];
    assert data[a..] == data[a..b] + data[b..];
  }

  lemma {:induction false} ClustersHoldData(img: Bytes, tot: nat, fatSec: nat, first: nat, data: Bytes, i: nat)
    requires ROOT_CLUS <= first && CLUSTER * i < |data| && Holds(img, Write(Off(fatSec, first), |data|, data))
    ensures var rest := ReadClusters(img, TheGeo(tot, fatSec), Chain(first + i, ClustersFor(|data|) - i));
      |data| - CLUSTER * i <= |rest| && rest[..|data| - CLUSTER * i] == data[CLUSTER * i..]
    decreases |data| - CLUSTER * i
  {
    hide ReadClus, Holds, Off, ClustersFor;
    var n := ClustersFor(|data|);
    CountFrom(|data|, i);
    var chain := Chain(first + i, n - i);
    assert chain[1..] == Chain(first + i + 1, n - i - 1);
    ClusterHoldsData(img, tot, fatSec, first, data, i);
    var here := ReadClus(img, TheGeo(tot, fatSec), first + i);
    var rest := ReadClusters(img, TheGeo(tot, fatSec), chain[1..]);
    if CLUSTER * (i + 1) < |data| {
      ClustersHoldData(img, tot, fatSec, first, data, i + 1);
      FullCluster(img, tot, fatSec, first + i);
      JoinParts(here, rest, data, CLUSTER * i, CLUSTER * (i + 1));
    } else {
      var m := |data| - CLUSTER * i;
      assert (here + rest)[..m] == here[..m] && data[CLUSTER * i..CLUSTER * i + m] == data[CLUSTER * i..];
    }
  }

  lemma CountFrom(size: nat, i: nat)
    requires CLUSTER * i < size
    ensures i < ClustersFor(size) && CLUSTER * (i + 1) == CLUSTER * i + CLUSTER
    ensures size <= CLUSTER * (i + 1) ==> ClustersFor(size) == i + 1
  {}

  lemma FullCluster(img: Bytes, tot: nat, fatSec: nat, c: nat)
    requires c >= ROOT_CLUS
    ensures |ReadClus(img, TheGeo(tot, fatSec), c)| <= CLUSTER
  {}

  /** Following a file's chain and cutting at its size gives back its bytes, if the
      image holds them. */
  lemma FileReads(img: Bytes, tot: nat, fatSec: nat, fat: map<nat, nat>, t: Item, parent: nat, lo: nat)
    requires t.FileItem? && Good(img, fatSec, fat, t, parent, lo)
    requires forall w :: w in FileWrites(t, fatSec) ==> Holds(img, w)
    ensures ReadFile(img, TheGeo(tot, fatSec), ItemStub(t).First(), |t.data|) == Ok(t.data)
  {
    hide Holds, HoldsFat, WalkChain, ReadClusters;
    if t.data != [] {
      var n := ClustersFor(|t.data|);
      assert Write(Off(fatSec, lo), |t.data|, t.data) in FileWrites(t, fatSec);
      hide Off, FileWrites;
      ChainReads(img, tot, fatSec, fat, lo, n, 0, {});
      ClustersHoldData(img, tot, fatSec, lo, t.data, 0);
      var all := ReadClusters(img, TheGeo(tot, fatSec), Chain(lo, n));
      assert Slice(all, 0, |t.data|) == all[..|t.data|] == t.data;
    }
  }

  /** Clusters from `c` on give no more bytes than the image has there. */
  lemma {:induction false} ClustersBounded(img: Bytes, tot: nat, fatSec: nat, c: nat, n: nat)
    requires c >= ROOT_CLUS
    ensures |ReadClusters(img, TheGeo(tot, fatSec), Chain(c, n))| <= Max(0, |img| - Off(fatSec, c))
    decreases n
  {
    hide ReadClus, Off;
    if n > 0 {
      var chain := Chain(c, n);
      assert chain[1..] == Chain(c + 1, n - 1);
      ClustersBounded(img, tot, fatSec, c + 1, n - 1);
      OffPlus(fatSec, c, 1);
      ClusterReads(img, tot, fatSec, c);
      SliceBounded(img, Off(fatSec, c));
    }
  }

  lemma SliceBounded(img: Bytes, off: nat)
    ensures |Slice(img, off, off + CLUSTER)| == Min(CLUSTER, Max(0, |img| - off))
  {}

  /** A file gives no more bytes than the image has from its first cluster on. */
  lemma FileBounded(img: Bytes, tot: nat, fatSec: nat, fat: map<nat, nat>, t: Item, parent: nat, lo: nat)
    requires t.FileItem? && Good(img, fatSec, fat, t, parent, lo) && t.data != []
    ensures var r := ReadFile(img, TheGeo(tot, fatSec), lo, |t.data|);
      r.Ok? && |r.value| <= Max(0, |img| - Off(fatSec, lo))
  {
    hide HoldsFat, WalkChain, ReadClusters, Off;
    var n := ClustersFor(|t.data|);
    ChainReads(img, tot, fatSec, fat, lo, n, 0, {});
    ClustersBounded(img, tot, fatSec, lo, n);
  }

  /** The image reaches to the end of every file of the subtree. */
  ghost predicate FilesInside(img: Bytes, ws: seq<Write>) {
    forall w :: w in ws ==> w.off + |w.bytes| <= |img|
  }

  ghost predicate FilesHold(img: Bytes, ws: seq<Write>) { forall w :: w in ws ==> Holds(img, w) }

  /** The tree below a directory reads back, contents included, if the image holds the
      files; and if it reads back, the image at least reaches to their ends. */
  lemma {:induction false} TreeReads(img: Bytes, tot: nat, fatSec: nat, fat: map<nat, nat>, t: Item, parent: nat,
                                     lo: nat, visited: set<nat>, fuel: nat)
    requires t.DirItem? && Good(img, fatSec, fat, t, parent, lo) && Used(t) <= fuel
    requires forall v :: v in visited ==> v < lo
    ensures FilesHold(img, FileWrites(t, fatSec)) ==>
      ReadTree(img, TheGeo(tot, fatSec), t.first, visited, fuel) == Ok(BareList(t.children))
    ensures ReadTree(img, TheGeo(tot, fatSec), t.first, visited, fuel) == Ok(BareList(t.children)) ==>
      FilesInside(img, FileWrites(t, fatSec))
    decreases t, 0
  {
    hide Good, GoodList, Used, UsedBy, ReadDir, Shown, ReadEntries, ShortsOf, EntriesOf, ItemStubs, Linked, BareList,
         FilesHold, FilesInside, FileWritesList;
    GoodChildren(img, fatSec, fat, t, parent, lo);
    GoodDirReads(img, tot, fatSec, fat, t, parent, lo, visited, fuel);
    TreeListReads(img, tot, fatSec, fat, t.children, ShortsOf(t, parent), t.first, lo + t.clusters,
                  visited + {t.first}, fuel - 1);
  }

  lemma {:induction false} TreeListReads(img: Bytes, tot: nat, fatSec: nat, fat: map<nat, nat>, ts: seq<Item>,
                                         shorts: seq<Bytes>, parent: nat, lo: nat, visited: set<nat>, fuel: nat)
    requires Eleven(ts, shorts) && GoodList(img, fatSec, fat, ts, parent, lo) && UsedBy(ts) <= fuel
    requires forall v :: v in visited ==> v < lo
    ensures var r := ReadEntries(img, TheGeo(tot, fatSec), EntriesOf(ItemStubs(ts), shorts), visited, fuel);
      && (FilesHold(img, FileWritesList(ts, fatSec)) ==> r == Ok(BareList(ts)))
      && (r == Ok(BareList(ts)) ==> FilesInside(img, FileWritesList(ts, fatSec)))
    decreases ts, 1
  {
    hide EntriesOf, ItemStubs, EntryOf, ItemStub, Good, GoodList, Used, UsedBy, ReadEntry, Bare, FileWrites, Holds;
    EntriesTail(ts, shorts);
    if ts != [] {
      GoodHead(img, fatSec, fat, ts, parent, lo);
      TreeOneReads(img, tot, fatSec, fat, ts[0], shorts[0], parent, lo, visited, fuel);
      TreeListReads(img, tot, fatSec, fat, ts[1..], shorts[1..], parent, lo + Used(ts[0]), visited, fuel);
      var r := ReadEntries(img, TheGeo(tot, fatSec), EntriesOf(ItemStubs(ts), shorts), visited, fuel);
      if r.Ok? { FirstAndRest(r.value[0], r.value[1..], Bare(ts[0]), BareList(ts[1..])); }
    }
  }

  lemma FirstAndRest<T>(x: T, xs: seq<T>, y: T, ys: seq<T>)
    ensures [x] + xs == [y] + ys <==> x == y && xs == ys
  {
    assert ([x] + xs)[0] == x && ([y] + ys)[0] == y && ([x] + xs)[1..] == xs && ([y] + ys)[1..] == ys;
  }

  lemma {:induction false} TreeOneReads(img: Bytes, tot: nat, fatSec: nat, fat: map<nat, nat>, t: Item, short: Bytes,
                                        parent: nat, lo: nat, visited: set<nat>, fuel: nat)
    requires |short| == 11 && Good(img, fatSec, fat, t, parent, lo) && Used(t) <= fuel
    requires forall v :: v in visited ==> v < lo
    ensures var r := ReadEntry(img, TheGeo(tot, fatSec), EntryOf(ItemStub(t), short), visited, fuel);
      && (FilesHold(img, FileWrites(t, fatSec)) ==> r == Ok(Bare(t)))
      && (r == Ok(Bare(t)) ==> FilesInside(img, FileWrites(t, fatSec)))
    decreases t, 1
  {
    hide Good, ReadTree, ReadFile, Used, Holds;
    if t.DirItem? {
      hide FilesHold, FilesInside, FileWrites;
      TreeReads(img, tot, fatSec, fat, t, parent, lo, visited, fuel);
    } else {
      if FilesHold(img, FileWrites(t, fatSec)) { FileReads(img, tot, fatSec, fat, t, parent, lo); }
      GoodFirst(img, fatSec, fat, t, parent, lo);
      if t.data != [] {
        FileBounded(img, tot, fatSec, fat, t, parent, lo);
      }
    }
  }

  lemma GoodFirst(img: Bytes, fatSec: nat, fat: map<nat, nat>, t: Item, parent: nat, lo: nat)
    requires t.FileItem? && Good(img, fatSec, fat, t, parent, lo)
    ensures t.first == (if t.data != [] then lo else 0) && ItemStub(t).First() == t.first && lo >= ROOT_CLUS
  {}
}
