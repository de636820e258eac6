/** The image writer: host nodes that receive their cluster numbers in place, and
    the buffer, FAT and allocation cursor the writer keeps. */
module Writer {
  import opened ByteStrings
  import opened ShortNames
  import opened LongNames
  import opened Directory
  import opened Layout

  /** A scanned file or directory. The structure is fixed when the tree is scanned;
      layout fills in the three cluster fields. */
  class Node {
    const name: Text
    const isDir: bool
    const data: Bytes
    const children: seq<Node>
    var firstClus: nat
    var parentClus: nat
    var dirN: nat

    ghost const tree: Tree
    ghost const repr: set<Node>

    ghost predicate Valid()
      decreases tree
    {
      && this in repr
      && (!isDir ==> tree == File(name, data) && children == [])
      && (isDir ==> tree.Dir? && tree.name == name && |tree.children| == |children| && data == [])
      && (forall i :: 0 <= i < |children| ==>
            && isDir && children[i].tree == tree.children[i] && children[i].Valid()
            && children[i].repr <= repr && this !in children[i].repr)
      && (forall i, j :: 0 <= i < j < |children| ==> children[i].repr !! children[j].repr)
    }

    constructor (name: Text, isDir: bool, data: Bytes, children: seq<Node>)
      requires if isDir then data == [] else children == []
      requires forall i :: 0 <= i < |children| ==> children[i].Valid()
      requires forall i, j :: 0 <= i < j < |children| ==> children[i].repr !! children[j].repr
      ensures Valid() && this.name == name && this.isDir == isDir && this.children == children
      ensures tree == if isDir then Dir(name, Trees(children)) else File(name, data)
    {
      this.name, this.isDir, this.data, this.children := name, isDir, data, children;
      firstClus, parentClus, dirN := 0, 0, 0;
      tree := if isDir then Dir(name, Trees(children)) else File(name, data);
      repr := {this} + set i, n | 0 <= i < |children| && n in children[i].repr :: n;
    }

    /** The node and everything below it carry the cluster numbers of `item`. */
    ghost predicate Is(item: Item)
      requires Valid()
      reads repr
      decreases tree
    {
      && firstClus == item.first && name == item.name
      && (isDir ==>
            && item.DirItem? && parentClus == item.parent && dirN == item.clusters
            && |children| == |item.children|
            && forall i :: 0 <= i < |children| ==> children[i].Is(item.children[i]))
      && (!isDir ==> item.FileItem? && item.data == data)
    }

    function ToStub(): Stub
      reads this
    {
      Stub(name, isDir, firstClus, |data|)
    }

    function ChildStubs(): (r: seq<Stub>)
      reads children
      ensures |r| == |children| && forall i :: 0 <= i < |children| ==> r[i] == children[i].ToStub()
    {
      seq(|children|, i requires 0 <= i < |children| reads children => children[i].ToStub())
    }
  }

  ghost function Trees(ns: seq<Node>): (r: seq<Tree>)
    ensures |r| == |ns| && forall i :: 0 <= i < |ns| ==> r[i] == ns[i].tree
  {
    seq(|ns|, i requires 0 <= i < |ns| => ns[i].tree)
  }

  lemma StubsOfItem(n: Node, item: Item)
    requires n.Valid() && n.isDir && n.Is(item)
    ensures n.ChildStubs() == ItemStubs(item.children)
  {
    forall i | 0 <= i < |n.children|
      ensures n.ChildStubs()[i] == ItemStub(item.children[i])
    {
      assert n.children[i].Is(item.children[i]);
    }
  }

  lemma StubsOfTree(n: Node)
    requires n.Valid() && n.isDir
    ensures SameNames(n.ChildStubs(), TreeStubs(n.tree.children))
  {
    forall i | 0 <= i < |n.children|
      ensures n.ChildStubs()[i].name == TreeStub(n.tree.children[i]).name
      ensures n.ChildStubs()[i].size == TreeStub(n.tree.children[i]).size
    {
      assert n.children[i].Valid();
    }
  }

  // ---- build_dir_entries ----

  /** Long-name records are only needed, and only written, for names that are not
      their own 8.3 form; those are the only ones that can fail to encode. */
  lemma BareNameEncodes(name: Text, short: Bytes)
    requires |short| == 11 && name == ShortToName(short)
    ensures Encodable(name)
  {
    StripShort(short[..8]);
    StripShort(short[8..]);
  }

  lemma {:induction false} StripShort(b: Bytes)
    ensures |RStrip(b)| <= |b|
    decreases |b|
  {
    if b != [] && IsSpace(b[|b| - 1]) { StripShort(b[..|b| - 1]); }
  }

  /** The records still to come, given what the loop has taken so far. */
  function Remaining(cs: seq<Stub>, taken: set<Bytes>): Option<Bytes> {
    if AssignShorts(NamesOf(cs), taken).Some? && forall i :: 0 <= i < |cs| ==> cs[i].Writable()
    then Some(Flatten(AllRecords(cs, AssignShorts(NamesOf(cs), taken).value)))
    else None
  }

  function Before(done: Bytes, rest: Option<Bytes>): Option<Bytes> {
    if rest.Some? then Some(done + rest.value) else None
  }

  lemma BeforeSteps(done: Bytes, child: Bytes, rest: Option<Bytes>)
    ensures Before([], rest) == rest && Before(done, Before(child, rest)) == Before(done + child, rest)
  {
    if rest.Some? {
      assert [] + rest.value == rest.value;
      assert done + (child + rest.value) == done + child + rest.value;
    }
  }

  lemma RemainingStep(cs: seq<Stub>, taken: set<Bytes>)
    requires cs != []
    ensures var s := ShortName(cs[0].name, taken);
      if s.Some? && cs[0].Writable() then
        Remaining(cs, taken) == Before(Flatten(ChildRecords(cs[0], s.value)), Remaining(cs[1..], taken + {s.value}))
      else Remaining(cs, taken) == None
  {
    hide ChildRecords, ShortName;
    assert NamesOf(cs)[1..] == NamesOf(cs[1..]) && NamesOf(cs)[0] == cs[0].name;
    var s := ShortName(cs[0].name, taken);
    if s.Some? && cs[0].Writable() {
      var rest := AssignShorts(NamesOf(cs[1..]), taken + {s.value});
      if rest.Some? && forall i :: 0 <= i < |cs[1..]| ==> cs[1..][i].Writable() {
        assert forall i :: 0 < i < |cs| ==> cs[i] == cs[1..][i - 1];
        FlattenAppend(ChildRecords(cs[0], s.value), AllRecords(cs[1..], rest.value));
        assert AssignShorts(NamesOf(cs), taken).value[1..] == rest.value;
      }
    }
  }

  method ChildBytes(c: Stub, short: Bytes) returns (r: Option<Bytes>)
    requires |short| == 11
    ensures r.Some? <==> c.Writable()
    ensures r.Some? ==> r.value == Flatten(ChildRecords(c, short))
    ensures r.Some? ==>
      && |r.value| >= 32 && r.value[|r.value| - 32..|r.value| - 21] == short
      && r.value[|r.value| - 21] == if c.isDir then 0x10 else 0x20
  {
    hide DirEntry, LfnRecords, ShortToName, Flatten;
    var long := [];
    if c.name != ShortToName(short) {
      var records := LfnEntries(c.name, short);
      if records.None? {
        return None;
      }
      long := records.value;
    } else {
      BareNameEncodes(c.name, short);
    }
    if c.size >= 0x1_0000_0000 {
      return None;
    }
    var entry := DirEntry(short, c.Attr(), c.First(), c.size);
    FlattenAppend(long, [entry]);
    FlattenOne(entry);
    EntryAtEnd(Flatten(long), entry);
    return Some(Flatten(long) + entry);
  }

  lemma FlattenOne(entry: Bytes)
    ensures Flatten([entry]) == entry && Flatten([]) == []
  {}

  lemma EntryAtEnd(long: Bytes, entry: Bytes)
    requires |entry| == 32
    ensures var all := long + entry;
      all[|all| - 32..|all| - 21] == entry[..11] && all[|all| - 21] == entry[11]
  {}

  /** All bytes of a directory; None where a name or a size cannot be encoded. */
  method BuildDirEntries(node: Node) returns (r: Option<Bytes>)
    ensures r.Some? <==> DirWritable(node.ChildStubs())
    ensures r.Some? ==> r.value == DirBytes(node.ChildStubs(), node.firstClus, node.parentClus)
  {
    hide ShortName, DotRecords, ChildRecords, Remaining, Before, DirWritable, DirBytes, Flatten, Stub.Writable;
    var taken: set<Bytes> := {};
    var entries: Bytes := Flatten(DotRecords(node.firstClus, node.parentClus));
    ghost var dots, done: Bytes := entries, [];
    ghost var cs := node.ChildStubs();
    assert cs[0..] == cs;
    BeforeSteps([], [], Remaining(cs, {}));
    for i := 0 to |node.children|
      invariant entries == dots + done
      invariant Remaining(cs, {}) == Before(done, Remaining(cs[i..], taken))
    {
      var c := node.children[i].ToStub();
      assert cs[i..][0] == c && cs[i..][1..] == cs[i + 1..];
      RemainingStep(cs[i..], taken);
      WholeDirectory(cs, node.firstClus, node.parentClus);
      BeforeNone(done);
      var short;
      short, taken := TakeShortName(c.name, taken);
      if short.None? {
        return None;
      }
      var child := ChildBytes(c, short.value);
      if child.None? {
        return None;
      }
      BeforeSteps(done, child.value, Remaining(cs[i + 1..], taken));
      entries := entries + child.value;
      done := done + child.value;
    }
    assert cs[|node.children|..] == [];
    WholeDirectory(cs, node.firstClus, node.parentClus);
    BeforeSome(done);
    entries := entries + [0];
    return Some(entries);
  }

  lemma BeforeNone(done: Bytes)
    ensures Before(done, None) == None
  {}

  lemma BeforeSome(done: Bytes)
    ensures Before(done, Some([])) == Some(done)
  {
    assert done + [] == done;
  }

  lemma WholeDirectory(cs: seq<Stub>, first: nat, parent: nat)
    ensures forall taken :: Remaining([], taken) == Some([])
    ensures Remaining(cs, {}).Some? <==> DirWritable(cs)
    ensures DirWritable(cs) ==>
      DirBytes(cs, first, parent) == Flatten(DotRecords(first, parent)) + Remaining(cs, {}).value + [0]
  {
    hide ChildRecords, DotRecords;
    assert NamesOf([]) == [];
    if DirWritable(cs) {
      FlattenAppend(DotRecords(first, parent), AllRecords(cs, AssignShorts(NamesOf(cs), {}).value));
    }
  }
}
