/** `create_image`: layout, directory and file writes, and the FAT, over one buffer. */
module CreateImage {
  import opened ByteStrings
  import opened ShortNames
  import opened Geometry
  import opened Directory
  import opened Layout
  import opened Splices
  import opened Schedule
  import opened Writer

  function Combine(items: seq<Item>, r: (seq<Item>, nat)): (seq<Item>, nat) { (items + r.0, r.1) }

  lemma NothingYet(r: (seq<Item>, nat))
    ensures Combine([], r) == r
  {
    assert [] + r.0 == r.0;
  }

  lemma NextItem(items: seq<Item>, ts: seq<Tree>, i: nat, parent: nat, next: nat)
    requires i < |ts|
    ensures var (one, next') := LayoutOne(ts[i], parent, next);
      Combine(items, LayoutList(ts[i..], parent, next))
      == Combine(items + [one], LayoutList(ts[i + 1..], parent, next'))
  {
    hide LayoutOne;
    assert ts[i..][0] == ts[i] && ts[i..][1..] == ts[i + 1..];
    var (one, next') := LayoutOne(ts[i], parent, next);
    var rest := LayoutList(ts[i + 1..], parent, next').0;
    assert items + ([one] + rest) == items + [one] + rest;
  }

  lemma IsDir(node: Node, item: Item)
    requires node.Valid() && node.isDir && item.DirItem? && item.name == node.name
    requires node.firstClus == item.first && node.parentClus == item.parent && node.dirN == item.clusters
    requires |node.children| == |item.children|
    requires forall i :: 0 <= i < |node.children| ==> node.children[i].Is(item.children[i])
    ensures node.Is(item)
  {}

  lemma PartSteps(fat: map<nat, nat>, first: nat, i: nat, n: nat)
    ensures fat + PartOfRun(first, 0, n) == fat
    ensures fat + PartOfRun(first, i + 1, n)
            == (fat + PartOfRun(first, i, n))[first + i := if i + 1 < n then first + i + 1 else EOC]
  {
  }

  lemma MergeAssociates(a: map<nat, nat>, b: map<nat, nat>, c: map<nat, nat>)
    ensures a + b + c == a + (b + c) && a + map[] == a
  {}

  class ImageWriter {
    var img: Bytes
    var fat: map<nat, nat>
    var nextClus: nat
    const fatSec: nat

    constructor (img: Bytes, fatSec: nat)
      ensures this.img == img && this.fatSec == fatSec && fat == map[] && nextClus == ROOT_CLUS
    {
      this.img, this.fatSec := img, fatSec;
      fat, nextClus := map[], ROOT_CLUS;
    }

    /** `alloc_run` */
    method AllocRun(size: nat) returns (first: nat)
      modifies this`fat, this`nextClus
      ensures first == if size == 0 then 0 else old(nextClus)
      ensures nextClus == old(nextClus) + ClustersFor(size)
      ensures fat == old(fat) + RunFat(first, ClustersFor(size))
    {
      if size == 0 {
        assert ClustersFor(0) == 0;
        return 0;
      }
      var n := ClustersFor(size);
      first := nextClus;
      nextClus := nextClus + n;
      PartSteps(old(fat), first, 0, n);
      for i := 0 to n
        invariant nextClus == first + n && fat == old(fat) + PartOfRun(first, i, n)
      {
        PartSteps(old(fat), first, i, n);
        fat := fat[first + i := if i + 1 < n then first + i + 1 else EOC];
      }
    }

    /** `layout_dir`: cluster numbers for a directory and everything below it, in
        place; false where some name or size below cannot be encoded. */
    method LayoutDir(node: Node, parent: nat) returns (ok: bool)
      requires node.Valid() && node.isDir
      modifies this`fat, this`nextClus, node.repr
      ensures ok <==> TreeWritable(node.tree)
      ensures ok ==>
        var (item, next) := LayoutOne(node.tree, parent, old(nextClus));
        node.Is(item) && nextClus == next && fat == old(fat) + FatOf(item)
      decreases node.tree, 1
    {
      hide DirWritable, DirClusters, LayoutOne, LayoutList, FatOf, FatOfList, RunFat;
      ghost var t, fat0, next0 := node.tree, fat, nextClus;
      DirLayout(t, parent, next0);
      ok := PlanDir(node, parent);
      if ok {
        node.firstClus := AllocRun(node.dirN * CLUSTER);
        assert ClustersFor(node.dirN * CLUSTER) == node.dirN;
        ghost var kids := LayoutList(t.children, next0, next0 + node.dirN).0;
        MergeAssociates(fat0, RunFat(next0, node.dirN), FatOfList(kids));
        ok := LayoutChildren(node);
        if ok {
          IsDir(node, LayoutOne(t, parent, next0).0);
        }
      }
    }

    /** The first pass over a directory, which fixes the length of its chain. */
    method PlanDir(node: Node, parent: nat) returns (ok: bool)
      requires node.Valid() && node.isDir
      modifies node`parentClus, node`dirN
      ensures ok <==> DirWritable(TreeStubs(node.tree.children))
      ensures ok ==> node.parentClus == parent && node.dirN == DirClusters(TreeStubs(node.tree.children), parent)
    {
      hide DirWritable, DirSize, DirBytes, SameNames, AssignShorts;
      node.parentClus := parent;
      var entries := BuildDirEntries(node);
      ghost var cs := node.ChildStubs();
      StubsOfTree(node);
      SameNamesAgree(cs, TreeStubs(node.tree.children), parent);
      ok := entries.Some?;
      if ok {
        DirBytesSize(cs, node.firstClus, parent);
        node.dirN := ClustersFor(|entries.value|);
      }
    }

    /** The loop of `layout_dir` over the children. */
    method LayoutChildren(node: Node) returns (ok: bool)
      requires node.Valid() && node.isDir
      modifies this`fat, this`nextClus, node.repr
      ensures node.firstClus == old(node.firstClus)
      ensures node.parentClus == old(node.parentClus) && node.dirN == old(node.dirN)
      ensures ok <==> forall i :: 0 <= i < |node.tree.children| ==> TreeWritable(node.tree.children[i])
      ensures ok ==>
        var (items, next) := LayoutList(node.tree.children, node.firstClus, old(nextClus));
        && nextClus == next && fat == old(fat) + FatOfList(items) && |items| == |node.children|
        && forall i :: 0 <= i < |items| ==> node.children[i].Is(items[i])
      decreases node.tree, 0
    {
      hide TreeWritable, LayoutOne, LayoutList, FatOf, FatOfList, RunFat, Combine, Node.Valid, Node.Is;
      NodeParts(node);
      ghost var ts := node.tree.children;
      ghost var items: seq<Item> := [];
      ghost var fat0, next0 := fat, nextClus;
      assert ts[0..] == ts;
      NoneLeft([], node.firstClus, nextClus);
      MergeAssociates(fat, map[], map[]);
      NothingYet(LayoutList(ts, node.firstClus, nextClus));
      for i := 0 to |node.children|
        invariant node.firstClus == old(node.firstClus)
        invariant node.parentClus == old(node.parentClus) && node.dirN == old(node.dirN)
        invariant |items| == i && forall j :: 0 <= j < i ==> node.children[j].Is(items[j])
        invariant forall j :: 0 <= j < i ==> TreeWritable(ts[j])
        invariant LayoutList(ts, node.firstClus, next0)
                  == Combine(items, LayoutList(ts[i..], node.firstClus, nextClus))
        invariant fat == fat0 + FatOfList(items)
      {
        var child := node.children[i];
        ghost var next1 := nextClus;
        if child.isDir {
          var done := LayoutDir(child, node.firstClus);
          if !done {
            return false;
          }
        } else {
          child.firstClus := AllocRun(|child.data|);
          FileLayout(child, node.firstClus, next1);
        }
        ghost var one := LayoutOne(child.tree, node.firstClus, next1).0;
        FatOfListSnoc(items, one);
        MergeAssociates(fat0, FatOfList(items), FatOf(one));
        NextItem(items, ts, i, node.firstClus, next1);
        items := items + [one];
      }
      assert ts[|ts|..] == [];
      NoneLeft(items, node.firstClus, nextClus);
      ok := true;
    }

    /** Puts the `n` clusters of a directory in place. */
    method WriteClusters(entries: Bytes, first: nat, n: nat)
      modifies this`img
      ensures img == ApplyAll(old(img), Slices(entries, Off(fatSec, first), n))
    {
      hide Splice, Slice, Off;
      ghost var ws := Slices(entries, Off(fatSec, first), n);
      assert ws[0..] == ws;
      for i := 0 to n
        invariant ApplyAll(img, ws[i..]) == ApplyAll(old(img), ws)
      {
        var off := Off(fatSec, first) + i * CLUSTER;
        assert ws[i..][0] == ws[i] && ws[i..][1..] == ws[i + 1..];
        img := Splice(img, off, off + CLUSTER, Slice(entries, i * CLUSTER, (i + 1) * CLUSTER));
      }
    }

    /** `write_dir_entries`: the second pass over a directory gives as many clusters
        as the first, so the "entry budget drift" error is never raised. */
    method WriteDirEntries(node: Node, ghost item: Item, ghost parent: nat) returns (drift: bool)
      requires node.Valid() && node.isDir && node.Is(item) && Linked(item, parent)
      modifies this`img
      ensures !drift
      ensures img == ApplyAll(old(img), Slices(ItemBytes(item), Off(fatSec, item.first), item.clusters))
    {
      hide DirWritable, DirClusters, DirBytes, Slices, ApplyAll;
      StubsOfItem(node, item);
      ChainLength(item, parent);
      var entries := BuildDirEntries(node);
      var n := ClustersFor(|entries.value|);
      drift := n != node.dirN;
      if !drift {
        WriteClusters(entries.value, node.firstClus, n);
      }
    }

    /** `write_all_dir_entries` */
    method WriteAllDirEntries(node: Node, ghost item: Item, ghost parent: nat)
      requires node.Valid() && node.isDir && node.Is(item) && Linked(item, parent)
      modifies this`img
      ensures img == ApplyAll(old(img), DirWrites(item, parent, fatSec))
      decreases node.tree
    {
      hide Node.Valid, Node.Is, Linked, ApplyAll, DirWritesList, DirWrites, Slices, ItemBytes;
      NodeShape(node, item);
      var _ := WriteDirEntries(node, item, parent);
      ghost var img1, kids := img, item.children;
      OwnThenChildren(old(img), item, parent, fatSec);
      assert kids[0..] == kids;
      LinkedChildren(item, parent);
      for i := 0 to |node.children|
        invariant ApplyAll(img, DirWritesList(kids[i..], item.first, fatSec))
                  == ApplyAll(img1, DirWritesList(kids, item.first, fatSec))
      {
        NodeChild(node, item, i);
        DirStep(img, kids, i, item.first, fatSec);
        if node.children[i].isDir {
          WriteAllDirEntries(node.children[i], kids[i], item.first);
        }
      }
      NothingLeft(img, kids, item.first, fatSec);
    }

    /** `write_files` */
    method WriteFiles(node: Node, ghost item: Item)
      requires node.Valid() && node.isDir && node.Is(item)
      modifies this`img
      ensures img == ApplyAll(old(img), FileWrites(item, fatSec))
      decreases node.tree
    {
      hide Node.Valid, Node.Is, FileWrites, FileWritesList, ApplyAll, Splice;
      NodeShape(node, item);
      ghost var kids := item.children;
      assert kids[0..] == kids;
      ChildrenFiles(item, fatSec);
      for i := 0 to |node.children|
        invariant ApplyAll(img, FileWritesList(kids[i..], fatSec)) == ApplyAll(old(img), FileWritesList(kids, fatSec))
      {
        var child := node.children[i];
        NodeChild(node, item, i);
        FileStep(img, kids, i, fatSec);
        if child.isDir {
          WriteFiles(child, kids[i]);
        } else if child.firstClus != 0 {
          var off := Off(fatSec, child.firstClus);
          img := Splice(img, off, off + |child.data|, child.data);
        }
      }
      NothingLeft(img, [], 0, fatSec);
      assert kids[|kids|..] == [];
    }
  }

  // ---- the writing loops, one step at a time ----

  lemma OwnThenChildren(img: Bytes, item: Item, parent: nat, fatSec: nat)
    requires item.DirItem? && Linked(item, parent)
    ensures ApplyAll(img, DirWrites(item, parent, fatSec))
            == ApplyAll(ApplyAll(img, Slices(ItemBytes(item), Off(fatSec, item.first), item.clusters)),
                        DirWritesList(item.children, item.first, fatSec))
  {
    hide Slices, ItemBytes, ApplyAll, DirClusters;
    ApplyAllAppend(img, Slices(ItemBytes(item), Off(fatSec, item.first), item.clusters),
                   DirWritesList(item.children, item.first, fatSec));
  }

  lemma DirStep(img: Bytes, kids: seq<Item>, i: nat, parent: nat, fatSec: nat)
    requires i < |kids| && forall k :: 0 <= k < |kids| ==> Linked(kids[k], parent)
    ensures ApplyAll(img, DirWritesList(kids[i..], parent, fatSec))
            == ApplyAll(ApplyAll(img, DirWrites(kids[i], parent, fatSec)), DirWritesList(kids[i + 1..], parent, fatSec))
    ensures kids[i].FileItem? ==> ApplyAll(img, DirWrites(kids[i], parent, fatSec)) == img
  {
    hide Linked, Slices, ItemBytes;
    assert kids[i..][0] == kids[i] && kids[i..][1..] == kids[i + 1..];
    ApplyAllAppend(img, DirWrites(kids[i], parent, fatSec), DirWritesList(kids[i + 1..], parent, fatSec));
  }

  lemma FileStep(img: Bytes, kids: seq<Item>, i: nat, fatSec: nat)
    requires i < |kids|
    ensures ApplyAll(img, FileWritesList(kids[i..], fatSec))
            == ApplyAll(ApplyAll(img, FileWrites(kids[i], fatSec)), FileWritesList(kids[i + 1..], fatSec))
    ensures kids[i].FileItem? ==>
      ApplyAll(img, FileWrites(kids[i], fatSec)) ==
        if kids[i].first == 0 then img
        else Splice(img, Off(fatSec, kids[i].first), Off(fatSec, kids[i].first) + |kids[i].data|, kids[i].data)
  {
    hide Splice;
    assert kids[i..][0] == kids[i] && kids[i..][1..] == kids[i + 1..];
    ApplyAllAppend(img, FileWrites(kids[i], fatSec), FileWritesList(kids[i + 1..], fatSec));
  }

  lemma NothingLeft(img: Bytes, kids: seq<Item>, parent: nat, fatSec: nat)
    requires forall k :: 0 <= k < |kids| ==> Linked(kids[k], parent)
    ensures ApplyAll(img, DirWritesList(kids[|kids|..], parent, fatSec)) == img
    ensures ApplyAll(img, FileWritesList([], fatSec)) == img
  {}

  lemma ChildrenFiles(item: Item, fatSec: nat)
    requires item.DirItem?
    ensures FileWrites(item, fatSec) == FileWritesList(item.children, fatSec)
  {}

  lemma NodeShape(node: Node, item: Item)
    requires node.Valid() && node.isDir && node.Is(item)
    ensures item.DirItem? && |node.children| == |item.children|
  {}

  lemma LinkedChildren(item: Item, parent: nat)
    requires item.DirItem? && Linked(item, parent)
    ensures forall i :: 0 <= i < |item.children| ==> Linked(item.children[i], item.first)
  {}

  /** What a node of a laid-out tree knows of its children. */
  lemma NodeChild(node: Node, item: Item, i: nat)
    requires node.Valid() && node.isDir && node.Is(item) && i < |node.children|
    ensures |node.children| == |item.children|
    ensures var child, kid := node.children[i], item.children[i];
      && child.Valid() && child.Is(kid) && (child.isDir <==> kid.DirItem?)
      && node.tree.Dir? && child.tree in node.tree.children
      && (!child.isDir ==> kid == FileItem(child.name, child.data, child.firstClus))
  {
    assert node.children[i].Valid() && node.children[i].Is(item.children[i]);
  }

  lemma DirLayout(t: Tree, parent: nat, next: nat)
    requires t.Dir?
    ensures var n := DirClusters(TreeStubs(t.children), parent);
      var (kids, next') := LayoutList(t.children, next, next + n);
      var item := DirItem(t.name, kids, next, parent, n);
      LayoutOne(t, parent, next) == (item, next') && FatOf(item) == RunFat(next, n) + FatOfList(kids)
  {}

  lemma FileLayout(node: Node, parent: nat, next: nat)
    requires node.Valid() && !node.isDir && node.firstClus == if node.data == [] then 0 else next
    ensures var (item, next') := LayoutOne(node.tree, parent, next);
      && node.Is(item) && next' == next + ClustersFor(|node.data|)
      && FatOf(item) == RunFat(node.firstClus, ClustersFor(|node.data|))
    ensures TreeWritable(node.tree)
  {}

  lemma NoneLeft(items: seq<Item>, parent: nat, next: nat)
    ensures Combine(items, LayoutList([], parent, next)) == (items, next) && FatOfList([]) == map[]
  {
    assert items + [] == items;
  }

  lemma NodeParts(node: Node)
    requires node.Valid() && node.isDir
    ensures node.tree.Dir? && |node.tree.children| == |node.children| && node in node.repr
    ensures forall i :: 0 <= i < |node.children| ==>
      var child := node.children[i];
      && child.tree == node.tree.children[i] && child.Valid() && child.repr <= node.repr
      && child in child.repr && node !in child.repr
    ensures forall i, j :: 0 <= i < j < |node.children| ==> node.children[i].repr !! node.children[j].repr
  {
    forall i | 0 <= i < |node.children|
      ensures node.children[i] in node.children[i].repr
    {
      assert node.children[i].Valid();
    }
  }

  lemma {:induction false} FatOfListSnoc(items: seq<Item>, one: Item)
    ensures FatOfList(items + [one]) == FatOfList(items) + FatOf(one)
    decreases |items|
  {
    hide FatOf;
    if items == [] {
      assert items + [one] == [one] && [one][1..] == [];
    } else {
      assert (items + [one])[1..] == items[1..] + [one];
      FatOfListSnoc(items[1..], one);
    }
  }
}
