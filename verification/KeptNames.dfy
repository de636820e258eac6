/** Which names come back. Whatever the image, the reader returns no character above
    0xFFFE and no dot name; for the trees of `create` that is the only loss. */
module KeptNames {
  import opened ByteStrings
  import opened Results
  import opened ShortNames
  import opened LongNames
  import opened Geometry
  import opened Directory
  import opened Layout
  import opened Splices
  import opened Schedule
  import opened FormatImage
  import opened Inspect
  import opened ReadBack
  import opened RoundTrip
  import opened WholeProgram

  predicate Plane0(name: Text) { forall i :: 0 <= i < |name| ==> name[i] < 0xFFFF }

  /** Names the reader can return. */
  predicate Kept(name: Text) { Plane0(name) && name != DOT_NAME && name != DOTDOT_NAME }

  predicate KeptTree(t: Tree) {
    t.Dir? ==> forall i :: 0 <= i < |t.children| ==> Kept(t.children[i].name) && KeptTree(t.children[i])
  }

  predicate AllPlane0(es: seq<Entry>) { forall i :: 0 <= i < |es| ==> Plane0(es[i].name) }

  predicate AllKept(es: seq<Entry>) { forall i :: 0 <= i < |es| ==> Kept(es[i].name) }

  // ---- what the reader returns, on any image ----

  lemma ParsedName(e: Bytes, pending: seq<Bytes>)
    requires |e| >= 12 && Keyed(pending)
    ensures var r := ParseShort(e, pending); r.Ok? ==> Plane0(r.value.name)
  {
    hide DecodeSorted;
    DecodeSortedInRange(SortByOrd(pending), []);
  }

  lemma {:induction false} ScannedNames(data: Bytes, off: nat, bpc: nat, pending: seq<Bytes>, entries: seq<Entry>)
    requires Keyed(pending) && AllPlane0(entries)
    ensures var r := ScanCluster(data, off, bpc, pending, entries); r.Ok? ==> AllPlane0(r.value.entries)
    decreases bpc - off
  {
    hide ParseShort, Plane0;
    var e := Slice(data, off, off + 32);
    if off < bpc && e != [] && e[0] != 0 {
      if e[0] == 0xE5 {
        ScannedNames(data, off + 32, bpc, [], entries);
      } else if |e| >= 12 && e[11] == ATTR_LFN {
        ScannedNames(data, off + 32, bpc, pending + [e], entries);
      } else if |e| >= 12 && ParseShort(e, pending).Ok? {
        ParsedName(e, pending);
        ScannedNames(data, off + 32, bpc, [], entries + [ParseShort(e, pending).value]);
      }
    }
  }

  lemma {:induction false} DirNames(img: Bytes, g: Geo, c: nat, visited: set<nat>, pending: seq<Bytes>,
                                    entries: seq<Entry>, chain: seq<nat>, fuel: nat)
    requires Keyed(pending) && AllPlane0(entries)
    ensures var r := ReadDir(img, g, c, visited, pending, entries, chain, fuel); r.Ok? ==> AllPlane0(r.value.1)
    decreases fuel
  {
    hide ScanCluster, AllPlane0, ReadClus, NextClus;
    if fuel > 0 {
      ScannedNames(ReadClus(img, g, c), 0, Bpc(g), pending, entries);
      var scan := ScanCluster(ReadClus(img, g, c), 0, Bpc(g), pending, entries);
      var next := NextClus(img, g, c);
      if scan.Ok? && next.Ok? {
        DirNames(img, g, next.value, visited, scan.value.pending, scan.value.entries, chain + [c], fuel - 1);
      }
    }
  }

  lemma {:induction false} ShownNames(es: seq<Entry>)
    requires AllPlane0(es)
    ensures AllKept(Shown(es))
    decreases |es|
  {
    hide Plane0;
    if es != [] { ShownNames(es[1..]); }
  }

  /** On any image, every name of a tree read back is one that can be kept. */
  lemma {:induction false} TreeNames(img: Bytes, g: Geo, c: nat, visited: set<nat>, fuel: nat)
    ensures var r := ReadTree(img, g, c, visited, fuel); r.Ok? ==> KeptTree(Dir([], r.value))
    decreases fuel, 0
  {
    hide ReadDir, ReadEntries, Kept, Shown, AllKept;
    if c !in visited && fuel > 0 {
      DirNames(img, g, c, visited + {c}, [], [], [], fuel);
      var dir := ReadDir(img, g, c, visited + {c}, [], [], [], fuel);
      if dir.Ok? {
        ShownNames(dir.value.1);
        EntryNames(img, g, Shown(dir.value.1), visited + {c}, fuel - 1);
      }
    }
  }

  lemma {:induction false} EntryNames(img: Bytes, g: Geo, es: seq<Entry>, visited: set<nat>, fuel: nat)
    requires AllKept(es)
    ensures var r := ReadEntries(img, g, es, visited, fuel); r.Ok? ==> KeptTree(Dir([], r.value))
    decreases fuel, |es| + 2
  {
    hide ReadTree, ReadFile, Kept;
    if es != [] {
      EntryNames(img, g, es[1..], visited, fuel);
      if es[0].isDir { TreeNames(img, g, es[0].first, visited, fuel); }
    }
  }

  // ---- the trees of create ----

  /** Names of 1 to 819 characters without NUL. */
  predicate PlainTree(t: Tree) {
    t.Dir? ==> forall i :: 0 <= i < |t.children| ==>
                 1 <= |t.children[i].name| <= 819 && 0 !in t.children[i].name && PlainTree(t.children[i])
  }

  lemma {:induction false} KeptIsLegal(t: Tree)
    requires TreeWritable(t) && PlainTree(t)
    ensures KeptTree(t) <==> LegalTree(t)
    decreases t
  {
    if t.Dir? {
      forall i | 0 <= i < |t.children|
        ensures Kept(t.children[i].name) && KeptTree(t.children[i])
                <==> LegalEntry(t.children[i].name) && LegalTree(t.children[i])
      {
        assert TreeStubs(t.children)[i].Writable();
        KeptIsLegal(t.children[i]);
      }
    }
  }

  /** The tree comes back exactly when every write lands and no name, at any level,
      is a dot name or has a character above 0xFFFE. */
  lemma NamesIff(img: Bytes, t: Tree, tot: nat, fuel: nat)
    requires t.Dir? && TreeWritable(t) && PlainTree(t) && ROOT_CLUS + Used(LayoutRoot(t)) <= EOC_MIN
    requires Linked(LayoutRoot(t), 0) && MadeImage(img, LayoutRoot(t), tot, FatSectors(tot))
    requires Lands(tot * 512 + 2, DirWrites(LayoutRoot(t), 0, FatSectors(tot))) && Used(LayoutRoot(t)) <= fuel
    ensures ReadTree(img, TheGeo(tot, FatSectors(tot)), ROOT_CLUS, {}, fuel) == Ok(t.children)
            <==> KeptTree(t) && Lands(tot * 512 + 2, AllWrites(LayoutRoot(t), FatSectors(tot)))
  {
    hide FatSectors, TreeWritable, PlainTree, LegalTree, LayoutRoot, Used, Linked, MadeImage, Lands, DirWrites,
         AllWrites, ReadTree, Kept;
    KeptIsLegal(t);
    TreeNames(img, TheGeo(tot, FatSectors(tot)), ROOT_CLUS, {}, fuel);
    if KeptTree(t) { ContentsIff(img, t, tot, fuel); }
  }
}
