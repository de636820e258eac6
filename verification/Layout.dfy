/** Cluster allocation for a directory tree: every directory, then its children in
    order, each take the next run of consecutive clusters. */
module Layout {
  import opened ByteStrings
  import opened ShortNames
  import opened Geometry
  import opened Directory

  /** A tree of files and directories, as scanned from the host. */
  datatype Tree =
    | File(name: Text, data: Bytes)
    | Dir(name: Text, children: seq<Tree>)

  /** The same tree with its cluster numbers. */
  datatype Item =
    | FileItem(name: Text, data: Bytes, first: nat)
    | DirItem(name: Text, children: seq<Item>, first: nat, parent: nat, clusters: nat)

  function TreeStub(t: Tree): Stub {
    match t
    case File(name, data) => Stub(name, false, 0, |data|)
    case Dir(name, _) => Stub(name, true, 0, 0)
  }

  function ItemStub(t: Item): Stub {
    match t
    case FileItem(name, data, first) => Stub(name, false, first, |data|)
    case DirItem(name, _, first, _, _) => Stub(name, true, first, 0)
  }

  function TreeStubs(ts: seq<Tree>): (r: seq<Stub>)
    ensures |r| == |ts| && forall i :: 0 <= i < |ts| ==> r[i] == TreeStub(ts[i])
  {
    seq(|ts|, i requires 0 <= i < |ts| => TreeStub(ts[i]))
  }

  function ItemStubs(ts: seq<Item>): (r: seq<Stub>)
    ensures |r| == |ts| && forall i :: 0 <= i < |ts| ==> r[i] == ItemStub(ts[i])
  {
    seq(|ts|, i requires 0 <= i < |ts| => ItemStub(ts[i]))
  }

  /** Every directory of the tree can be written out. */
  predicate TreeWritable(t: Tree) {
    t.Dir? ==> DirWritable(TreeStubs(t.children)) && forall i :: 0 <= i < |t.children| ==> TreeWritable(t.children[i])
  }

  /** Stubs that differ only in their cluster numbers. */
  predicate SameNames(cs: seq<Stub>, ds: seq<Stub>) {
    |cs| == |ds| && forall i :: 0 <= i < |cs| ==> cs[i].name == ds[i].name && cs[i].size == ds[i].size
  }

  // ---- the allocator ----

  /** Clusters of the chain of one directory. The program stops at a directory it
      cannot write, so the number given to such a one is never used. */
  function DirClusters(cs: seq<Stub>, parent: nat): (n: nat)
    ensures n >= 1
  {
    if DirWritable(cs) then ClustersFor(DirSize(NamesOf(cs), parent != 0)) else 1
  }

  lemma SameNamesAgree(cs: seq<Stub>, ds: seq<Stub>, parent: nat)
    requires SameNames(cs, ds)
    ensures DirWritable(cs) <==> DirWritable(ds)
    ensures DirClusters(cs, parent) == DirClusters(ds, parent)
  {
    hide DirSize, AssignShorts;
    assert NamesOf(cs) == NamesOf(ds);
  }

  /** `layout_dir`, and what it does for a file: the item laid out from cluster
      `next` on, and the next free cluster. */
  function LayoutOne(t: Tree, parent: nat, next: nat): (Item, nat)
    decreases t, 0
  {
    match t
    case File(name, data) =>
      (FileItem(name, data, if data == [] then 0 else next), next + ClustersFor(|data|))
    case Dir(name, children) =>
      var n := DirClusters(TreeStubs(children), parent);
      var (kids, next') := LayoutList(children, next, next + n);
      (DirItem(name, kids, next, parent, n), next')
  }

  function LayoutList(ts: seq<Tree>, parent: nat, next: nat): (seq<Item>, nat)
    decreases ts, 1
  {
    if ts == [] then ([], next)
    else
      var (one, next') := LayoutOne(ts[0], parent, next);
      var (rest, next'') := LayoutList(ts[1..], parent, next');
      ([one] + rest, next'')
  }

  /** The layout of a whole tree: the root takes cluster 2 and has no parent. */
  function LayoutRoot(t: Tree): Item {
    LayoutOne(t, 0, ROOT_CLUS).0
  }

  // ---- what a layout looks like ----

  /** Clusters of one item's own chain. */
  function OwnClusters(t: Item): nat {
    match t
    case FileItem(_, data, _) => ClustersFor(|data|)
    case DirItem(_, _, _, _, n) => n
  }

  /** Clusters of an item and everything below it. */
  function Used(t: Item): nat
    decreases t, 0
  {
    OwnClusters(t) + if t.DirItem? then UsedBy(t.children) else 0
  }

  function UsedBy(ts: seq<Item>): nat
    decreases ts, 1
  {
    if ts == [] then 0 else Used(ts[0]) + UsedBy(ts[1..])
  }

  /** The runs of `t` tile the clusters from `lo` on without gaps. */
  predicate Tiled(t: Item, lo: nat)
    decreases t, 0
  {
    match t
    case FileItem(_, data, first) => first == if data == [] then 0 else lo
    case DirItem(_, children, first, _, n) => first == lo && n >= 1 && TiledList(children, lo + n)
  }

  predicate TiledList(ts: seq<Item>, lo: nat)
    decreases ts, 1
  {
    ts == [] || (Tiled(ts[0], lo) && TiledList(ts[1..], lo + Used(ts[0])))
  }

  /** Every directory knows its parent, and its chain has room for its bytes. */
  predicate Linked(t: Item, parent: nat)
    decreases t
  {
    t.DirItem? ==>
      && t.parent == parent
      && DirWritable(ItemStubs(t.children)) && t.clusters == DirClusters(ItemStubs(t.children), parent)
      && forall i :: 0 <= i < |t.children| ==> Linked(t.children[i], t.first)
  }

  /** The tree behind an item. */
  function Bare(t: Item): Tree
    decreases t, 0
  {
    match t
    case FileItem(name, data, _) => File(name, data)
    case DirItem(name, children, _, _, _) => Dir(name, BareList(children))
  }

  function BareList(ts: seq<Item>): (r: seq<Tree>)
    ensures |r| == |ts|
    decreases ts, 1
  {
    if ts == [] then [] else [Bare(ts[0])] + BareList(ts[1..])
  }

  lemma {:induction false} BareStubs(ts: seq<Item>)
    ensures SameNames(ItemStubs(ts), TreeStubs(BareList(ts)))
    decreases |ts|
  {
    if ts != [] {
      BareStubs(ts[1..]);
      assert forall i :: 0 < i < |ts| ==> ts[i] == ts[1..][i - 1] && BareList(ts)[i] == BareList(ts[1..])[i - 1];
    }
  }

  lemma {:induction false} LayoutOneShape(t: Tree, parent: nat, next: nat)
    requires TreeWritable(t)
    ensures var (item, next') := LayoutOne(t, parent, next);
      Bare(item) == t && Tiled(item, next) && Linked(item, parent) && next' == next + Used(item)
    decreases t, 0
  {
    hide DirWritable, DirClusters, SameNames;
    if t.Dir? {
      var n := DirClusters(TreeStubs(t.children), parent);
      LayoutListShape(t.children, next, next + n);
      var kids := LayoutList(t.children, next, next + n).0;
      BareStubs(kids);
      SameNamesAgree(ItemStubs(kids), TreeStubs(t.children), parent);
    }
  }

  lemma {:induction false} LayoutListShape(ts: seq<Tree>, parent: nat, next: nat)
    requires forall i :: 0 <= i < |ts| ==> TreeWritable(ts[i])
    ensures var (items, next') := LayoutList(ts, parent, next);
      && BareList(items) == ts && TiledList(items, next) && next' == next + UsedBy(items)
      && forall i :: 0 <= i < |items| ==> Linked(items[i], parent)
    decreases ts, 1
  {
    hide LayoutOne, TreeWritable, Linked, Tiled, Bare, Used;
    if ts != [] {
      LayoutOneShape(ts[0], parent, next);
      LayoutListShape(ts[1..], parent, LayoutOne(ts[0], parent, next).1);
    }
  }

  // ---- the FAT the allocator builds ----

  function Chain(first: nat, n: nat): (r: seq<nat>)
    ensures |r| == n && forall i :: 0 <= i < n ==> r[i] == first + i
  {
    seq(n, i => first + i)
  }

  /** A run of consecutive clusters, the last one marked as the end of the chain. */
  function RunFat(first: nat, n: nat): (m: map<nat, nat>)
    ensures forall c: nat :: c in m <==> first <= c < first + n
  {
    PartOfRun(first, n, n)
  }

  /** The first `i` links of a run. */
  function PartOfRun(first: nat, i: nat, n: nat): (m: map<nat, nat>)
    ensures forall c: nat :: c in m <==> first <= c < first + i
    ensures forall c: nat :: c in m ==> m[c] == if c + 1 < first + n then c + 1 else EOC
  {
    if i == 0 then map[]
    else
      var c := first + i - 1;
      PartOfRun(first, i - 1, n)[c := if c + 1 < first + n then c + 1 else EOC]
  }

  function FatOf(t: Item): map<nat, nat>
    decreases t, 0
  {
    RunFat(t.first, OwnClusters(t)) + if t.DirItem? then FatOfList(t.children) else map[]
  }

  function FatOfList(ts: seq<Item>): map<nat, nat>
    decreases ts, 1
  {
    if ts == [] then map[] else FatOf(ts[0]) + FatOfList(ts[1..])
  }

  /** `fat` holds a chain of `n` consecutive clusters from `first` on. */
  ghost predicate ChainIn(fat: map<nat, nat>, first: nat, n: nat) {
    forall c :: first <= c < first + n ==> c in fat && fat[c] == if c + 1 < first + n then c + 1 else 0x0FFF_FFFF
  }

  /** Every item of the subtree has its chain in `fat`. */
  ghost predicate Chained(fat: map<nat, nat>, t: Item)
    decreases t
  {
    && ChainIn(fat, t.first, OwnClusters(t))
    && (t.DirItem? ==> forall i :: 0 <= i < |t.children| ==> Chained(fat, t.children[i]))
  }

  ghost predicate Extends(big: map<nat, nat>, small: map<nat, nat>) {
    forall c :: c in small ==> c in big && big[c] == small[c]
  }

  lemma {:induction false} ChainedExtends(small: map<nat, nat>, big: map<nat, nat>, t: Item)
    requires Chained(small, t) && Extends(big, small)
    ensures Chained(big, t)
    decreases t
  {
    if t.DirItem? {
      forall i | 0 <= i < |t.children|
        ensures Chained(big, t.children[i])
      {
        ChainedExtends(small, big, t.children[i]);
      }
    }
  }

  /** The FAT of a tiled item has exactly the item's clusters as its keys, and
      holds the chain of everything in it. */
  lemma {:induction false} FatOfTiled(t: Item, lo: nat)
    requires Tiled(t, lo)
    ensures forall c: nat :: c in FatOf(t) <==> lo <= c < lo + Used(t)
    ensures Chained(FatOf(t), t)
    decreases t, 0
  {
    if t.DirItem? {
      FatOfTiledList(t.children, lo + t.clusters);
      forall i | 0 <= i < |t.children|
        ensures Chained(FatOf(t), t.children[i])
      {
        ChainedExtends(FatOfList(t.children), FatOf(t), t.children[i]);
      }
    }
  }

  lemma {:induction false} FatOfTiledList(ts: seq<Item>, lo: nat)
    requires TiledList(ts, lo)
    ensures forall c: nat :: c in FatOfList(ts) <==> lo <= c < lo + UsedBy(ts)
    ensures forall i :: 0 <= i < |ts| ==> Chained(FatOfList(ts), ts[i])
    decreases ts, 1
  {
    if ts != [] {
      FatOfTiled(ts[0], lo);
      FatOfTiledList(ts[1..], lo + Used(ts[0]));
      assert FatOf(ts[0]).Keys !! FatOfList(ts[1..]).Keys;
      ChainedExtends(FatOf(ts[0]), FatOfList(ts), ts[0]);
      forall i | 0 < i < |ts|
        ensures Chained(FatOfList(ts), ts[i])
      {
        assert ts[i] == ts[1..][i - 1];
        ChainedExtends(FatOfList(ts[1..]), FatOfList(ts), ts[i]);
      }
    }
  }

  // ---- all clusters in allocation order ----

  function ClustersOf(t: Item): seq<nat>
    decreases t, 0
  {
    Chain(t.first, OwnClusters(t)) + if t.DirItem? then ClustersOfList(t.children) else []
  }

  function ClustersOfList(ts: seq<Item>): seq<nat>
    decreases ts, 1
  {
    if ts == [] then [] else ClustersOf(ts[0]) + ClustersOfList(ts[1..])
  }

  /** The chains of a tiled item, in order, are one run without gap or overlap. */
  lemma {:induction false} ClustersOfTiled(t: Item, lo: nat)
    requires Tiled(t, lo)
    ensures ClustersOf(t) == Chain(lo, Used(t))
    decreases t, 0
  {
    hide Chain, ClustersFor;
    if t.DirItem? {
      ClustersOfTiledList(t.children, lo + t.clusters);
      ChainSplit(lo, t.clusters, UsedBy(t.children));
    } else {
      ChainSplit(lo, ClustersFor(|t.data|), 0);
      ChainEmpty(t.first, lo);
    }
  }

  lemma {:induction false} ClustersOfTiledList(ts: seq<Item>, lo: nat)
    requires TiledList(ts, lo)
    ensures ClustersOfList(ts) == Chain(lo, UsedBy(ts))
    decreases ts, 1
  {
    hide Chain, ClustersOf, Used;
    if ts != [] {
      ClustersOfTiled(ts[0], lo);
      ClustersOfTiledList(ts[1..], lo + Used(ts[0]));
      ChainSplit(lo, Used(ts[0]), UsedBy(ts[1..]));
    } else {
      ChainEmpty(lo, lo);
    }
  }

  lemma ChainSplit(lo: nat, a: nat, b: nat)
    ensures Chain(lo, a) + Chain(lo + a, b) == Chain(lo, a + b)
  {}

  lemma ChainEmpty(a: nat, b: nat)
    ensures Chain(a, 0) == [] == Chain(b, 0)
  {}

  /** The allocation theorem: the laid-out tree is the tree given; its chains lie
      end to end from cluster 2 on; the FAT has exactly those clusters as keys and
      holds every chain, ended by EOC; and each chain is just long enough. */
  lemma LayoutTheorem(t: Tree)
    requires t.Dir? && TreeWritable(t)
    ensures var root := LayoutRoot(t);
      && Bare(root) == t
      && ClustersOf(root) == Chain(ROOT_CLUS, Used(root))
      && (forall c: nat :: c in FatOf(root) <==> ROOT_CLUS <= c < ROOT_CLUS + Used(root))
      && Chained(FatOf(root), root)
      && Tiled(root, ROOT_CLUS) && Linked(root, 0)
      && LayoutOne(t, 0, ROOT_CLUS).1 == ROOT_CLUS + Used(root)
  {
    LayoutOneShape(t, 0, ROOT_CLUS);
    ClustersOfTiled(LayoutRoot(t), ROOT_CLUS);
    FatOfTiled(LayoutRoot(t), ROOT_CLUS);
  }
}
