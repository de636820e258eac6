/** Directory contents: the records written for one directory, and the reader's
    scan over them. */
module Directory {
  import opened ByteStrings
  import opened Results
  import opened ShortNames
  import opened LongNames
  import opened Geometry

  const ATTR_DIRECTORY: Byte := 0x10
  const ATTR_ARCHIVE: Byte := 0x20
  const FIXED_DATE := 46 * 512 + 8 * 32 + 1
  const FIXED_TIME := 12 * 2048
  const DOT_SHORT: Bytes := [46, 32, 32, 32, 32, 32, 32, 32, 32, 32, 32]
  const DOTDOT_SHORT: Bytes := [46, 46, 32, 32, 32, 32, 32, 32, 32, 32, 32]
  const DOT_NAME: Text := [46]
  const DOTDOT_NAME: Text := [46, 46]

  // ---- writing ----

  /** `dir_entry` */
  function DirEntry(short: Bytes, attr: Byte, first: nat, size: nat): (e: Bytes)
    requires |short| == 11 && size < 0x1_0000_0000
    ensures |e| == 32 && e[..11] == short && e[11] == attr
  {
    (short + [attr, 0, 0] + Le16(FIXED_TIME) + Le16(FIXED_DATE) + Le16(FIXED_DATE))
    + (Le16(first / 0x1_0000 % 0x1_0000) + Le16(FIXED_TIME) + Le16(FIXED_DATE) + Le16(first % 0x1_0000))
    + Le32(size)
  }

  lemma PartAt(head: Bytes, middle: Bytes, tail: Bytes, i: nat, j: nat)
    requires i <= j <= |middle|
    ensures (head + middle + tail)[|head| + i..|head| + j] == middle[i..j]
  {
    var all := head + middle + tail;
    forall k | i <= k < j
      ensures all[|head| + k] == middle[k]
    {
    }
  }

  lemma DirEntryFields(short: Bytes, attr: Byte, first: nat, size: nat)
    requires |short| == 11 && size < 0x1_0000_0000 && first < 0x1_0000_0000
    ensures var e := DirEntry(short, attr, first, size);
      U16(e, 26) + 0x1_0000 * U16(e, 20) == first && U32(e, 28) == size
  {
    var e := DirEntry(short, attr, first, size);
    var hi, lo := first / 0x1_0000 % 0x1_0000, first % 0x1_0000;
    var head := short + [attr, 0, 0] + Le16(FIXED_TIME) + Le16(FIXED_DATE) + Le16(FIXED_DATE);
    var middle := Le16(hi) + Le16(FIXED_TIME) + Le16(FIXED_DATE) + Le16(lo);
    hide Le16, Le32, U16, U32;
    assert |head| == 20 && |middle| == 8 && e == head + middle + Le32(size);
    assert middle[0..2] == Le16(hi) && middle[6..8] == Le16(lo);
    PartAt(head, middle, Le32(size), 0, 2);
    PartAt(head, middle, Le32(size), 6, 8);
    PartAt(head + middle, Le32(size), [], 0, 4);
    assert head + middle + Le32(size) + [] == e && Le32(size)[0..4] == Le32(size);
    U16OfLe16(hi, e, 20);
    U16OfLe16(lo, e, 26);
    U32OfLe32(size, e, 28);
  }

  /** What a directory entry needs to know of a child. */
  datatype Stub = Stub(name: Text, isDir: bool, first: nat, size: nat) {
    function Attr(): Byte { if isDir then ATTR_DIRECTORY else ATTR_ARCHIVE }

    function First(): nat { if isDir || size != 0 then first else 0 }

    /** Names and sizes the writer can encode without raising. */
    predicate Writable() { Encodable(name) && size < 0x1_0000_0000 }
  }

  function NamesOf(cs: seq<Stub>): seq<Text> { seq(|cs|, i requires 0 <= i < |cs| => cs[i].name) }

  function ChildRecords(c: Stub, short: Bytes): seq<Bytes>
    requires |short| == 11 && c.Writable()
  {
    (if c.name != ShortToName(short) then LfnRecords(c.name, short) else [])
    + [DirEntry(short, c.Attr(), c.First(), c.size)]
  }

  predicate Paired(cs: seq<Stub>, shorts: seq<Bytes>) {
    && |cs| == |shorts|
    && (forall i :: 0 <= i < |shorts| ==> |shorts[i]| == 11)
    && (forall i :: 0 <= i < |cs| ==> cs[i].Writable())
  }

  function AllRecords(cs: seq<Stub>, shorts: seq<Bytes>): seq<Bytes>
    requires Paired(cs, shorts)
  {
    if cs == [] then [] else ChildRecords(cs[0], shorts[0]) + AllRecords(cs[1..], shorts[1..])
  }

  /** "." and "..", absent in the root; a parent that is the root is written as 0. */
  function DotRecords(first: nat, parent: nat): seq<Bytes> {
    if parent == 0 then []
    else [DirEntry(DOT_SHORT, ATTR_DIRECTORY, first, 0),
          DirEntry(DOTDOT_SHORT, ATTR_DIRECTORY, if parent != ROOT_CLUS then parent else 0, 0)]
  }

  /** The children can be written: every name gets a field and encodes. */
  predicate DirWritable(cs: seq<Stub>) {
    AssignShorts(NamesOf(cs), {}).Some? && forall i :: 0 <= i < |cs| ==> cs[i].Writable()
  }

  function DirRecords(cs: seq<Stub>, first: nat, parent: nat): seq<Bytes>
    requires DirWritable(cs)
  {
    DotRecords(first, parent) + AllRecords(cs, AssignShorts(NamesOf(cs), {}).value)
  }

  function Flatten(recs: seq<Bytes>): Bytes {
    if recs == [] then [] else recs[0] + Flatten(recs[1..])
  }

  /** All bytes of a directory, the end mark included. */
  function DirBytes(cs: seq<Stub>, first: nat, parent: nat): Bytes
    requires DirWritable(cs)
  {
    Flatten(DirRecords(cs, first, parent)) + [0]
  }

  // ---- the size depends on names alone ----

  function RecordCount(names: seq<Text>, shorts: seq<Bytes>): nat
    requires |names| == |shorts| && forall i :: 0 <= i < |shorts| ==> |shorts[i]| == 11
  {
    if names == [] then 0
    else
      (if names[0] != ShortToName(shorts[0]) then Records(names[0]) else 0) + 1
      + RecordCount(names[1..], shorts[1..])
  }

  function DirSize(names: seq<Text>, dots: bool): nat
    requires AssignShorts(names, {}).Some?
  {
    var n := RecordCount(names, AssignShorts(names, {}).value);
    32 * ((if dots then 2 else 0) + n) + 1
  }

  predicate AllLong(recs: seq<Bytes>) { forall i :: 0 <= i < |recs| ==> |recs[i]| == 32 }

  lemma {:induction false} FlattenLength(recs: seq<Bytes>)
    requires AllLong(recs)
    ensures |Flatten(recs)| == 32 * |recs|
    decreases |recs|
  {
    if recs != [] { FlattenLength(recs[1..]); }
  }

  lemma {:induction false} FlattenAt(recs: seq<Bytes>, i: nat)
    requires AllLong(recs) && i < |recs|
    ensures |Flatten(recs)| == 32 * |recs| && Flatten(recs)[32 * i..32 * i + 32] == recs[i]
    decreases |recs|
  {
    FlattenLength(recs);
    if i > 0 {
      FlattenAt(recs[1..], i - 1);
      var rest := Flatten(recs[1..]);
      assert Flatten(recs)[32 * i..32 * i + 32] == rest[32 * (i - 1)..32 * (i - 1) + 32];
    }
  }

  lemma {:induction false} FlattenAppend(xs: seq<Bytes>, ys: seq<Bytes>)
    ensures Flatten(xs + ys) == Flatten(xs) + Flatten(ys)
    decreases |xs|
  {
    if xs == [] {
      assert xs + ys == ys;
    } else {
      assert (xs + ys)[1..] == xs[1..] + ys;
      FlattenAppend(xs[1..], ys);
    }
  }

  lemma ChildRecordsShape(c: Stub, short: Bytes)
    requires |short| == 11 && c.Writable()
    ensures AllLong(ChildRecords(c, short))
    ensures |ChildRecords(c, short)| == (if c.name != ShortToName(short) then Records(c.name) else 0) + 1
  {}

  lemma {:induction false} AllRecordsShape(cs: seq<Stub>, shorts: seq<Bytes>)
    requires Paired(cs, shorts)
    ensures AllLong(AllRecords(cs, shorts))
    ensures |AllRecords(cs, shorts)| == RecordCount(NamesOf(cs), shorts)
    decreases |cs|
  {
    hide ChildRecords;
    if cs != [] {
      ChildRecordsShape(cs[0], shorts[0]);
      AllRecordsShape(cs[1..], shorts[1..]);
      assert NamesOf(cs)[1..] == NamesOf(cs[1..]);
    }
  }

  /** Both passes over a directory give the same length, whatever the cluster numbers. */
  lemma {:induction false} DirBytesSize(cs: seq<Stub>, first: nat, parent: nat)
    requires DirWritable(cs)
    ensures AllLong(DirRecords(cs, first, parent))
    ensures |DirBytes(cs, first, parent)| == DirSize(NamesOf(cs), parent != 0)
    ensures |DirBytes(cs, first, parent)| == 32 * |DirRecords(cs, first, parent)| + 1
  {
    hide Flatten, AllRecords, DotRecords, RecordCount, AssignShorts;
    AllRecordsShape(cs, AssignShorts(NamesOf(cs), {}).value);
    DotRecordsShape(first, parent);
    FlattenLength(DirRecords(cs, first, parent));
  }

  lemma DotRecordsShape(first: nat, parent: nat)
    ensures AllLong(DotRecords(first, parent)) && |DotRecords(first, parent)| == if parent != 0 then 2 else 0
  {
    hide DirEntry;
  }

  // ---- the 8.3 fields of a directory ----

  /** The fields of the short entries among some records, in order. */
  function ShortFields(recs: seq<Bytes>): seq<Bytes>
    requires AllLong(recs)
  {
    if recs == [] then []
    else (if recs[0][11] == ATTR_LFN then [] else [recs[0][..11]]) + ShortFields(recs[1..])
  }

  ghost predicate AllDifferent(fields: seq<Bytes>) {
    forall i, j :: 0 <= i < j < |fields| ==> fields[i] != fields[j]
  }

  lemma {:induction false} ShortFieldsAppend(xs: seq<Bytes>, ys: seq<Bytes>)
    requires AllLong(xs) && AllLong(ys)
    ensures AllLong(xs + ys) && ShortFields(xs + ys) == ShortFields(xs) + ShortFields(ys)
    decreases |xs|
  {
    if xs == [] {
      assert xs + ys == ys;
    } else {
      assert (xs + ys)[1..] == xs[1..] + ys;
      ShortFieldsAppend(xs[1..], ys);
    }
  }

  lemma {:induction false} NoShortFields(recs: seq<Bytes>)
    requires AllLong(recs) && forall i :: 0 <= i < |recs| ==> recs[i][11] == ATTR_LFN
    ensures ShortFields(recs) == []
    decreases |recs|
  {
    if recs != [] { NoShortFields(recs[1..]); }
  }

  lemma OneShortField(short: Bytes, attr: Byte, first: nat, size: nat)
    requires |short| == 11 && size < 0x1_0000_0000 && attr != ATTR_LFN
    ensures AllLong([DirEntry(short, attr, first, size)])
    ensures ShortFields([DirEntry(short, attr, first, size)]) == [short]
  {
    hide DirEntry;
    var recs: seq<Bytes> := [DirEntry(short, attr, first, size)];
    assert recs[1..] == [];
  }

  lemma ChildField(c: Stub, short: Bytes)
    requires |short| == 11 && c.Writable()
    ensures AllLong(ChildRecords(c, short)) && ShortFields(ChildRecords(c, short)) == [short]
  {
    hide ShortFields, DirEntry;
    var long := if c.name != ShortToName(short) then LfnRecords(c.name, short) else [];
    NoShortFields(long);
    OneShortField(short, c.Attr(), c.First(), c.size);
    ShortFieldsAppend(long, [DirEntry(short, c.Attr(), c.First(), c.size)]);
  }

  lemma {:induction false} ChildFields(cs: seq<Stub>, shorts: seq<Bytes>)
    requires Paired(cs, shorts)
    ensures AllLong(AllRecords(cs, shorts)) && ShortFields(AllRecords(cs, shorts)) == shorts
    decreases |cs|
  {
    hide ChildRecords;
    if cs != [] {
      ChildField(cs[0], shorts[0]);
      ChildFields(cs[1..], shorts[1..]);
      ShortFieldsAppend(ChildRecords(cs[0], shorts[0]), AllRecords(cs[1..], shorts[1..]));
    }
  }

  function DotFields(parent: nat): seq<Bytes> { if parent == 0 then [] else [DOT_SHORT, DOTDOT_SHORT] }

  lemma DotFieldsOf(first: nat, parent: nat)
    ensures AllLong(DotRecords(first, parent)) && ShortFields(DotRecords(first, parent)) == DotFields(parent)
  {
    hide ShortFields, DirEntry;
    if parent == 0 {
      NoShortFields([]);
    } else {
      var up := if parent != ROOT_CLUS then parent else 0;
      var d, dd := DirEntry(DOT_SHORT, ATTR_DIRECTORY, first, 0), DirEntry(DOTDOT_SHORT, ATTR_DIRECTORY, up, 0);
      OneShortField(DOT_SHORT, ATTR_DIRECTORY, first, 0);
      OneShortField(DOTDOT_SHORT, ATTR_DIRECTORY, up, 0);
      ShortFieldsAppend([d], [dd]);
      assert [d] + [dd] == [d, dd];
    }
  }

  lemma FieldsOfDirectory(cs: seq<Stub>, first: nat, parent: nat)
    requires DirWritable(cs)
    ensures AllLong(DirRecords(cs, first, parent))
    ensures ShortFields(DirRecords(cs, first, parent)) == DotFields(parent) + AssignShorts(NamesOf(cs), {}).value
  {
    hide ShortFields, DotRecords, AllRecords, DotFields;
    var shorts := AssignShorts(NamesOf(cs), {}).value;
    DotFieldsOf(first, parent);
    ChildFields(cs, shorts);
    ShortFieldsAppend(DotRecords(first, parent), AllRecords(cs, shorts));
  }

  lemma IsDotsIff(s: Bytes)
    ensures IsDots(s) <==> s == DOT_SHORT || s == DOTDOT_SHORT
  {
    if IsDots(s) {
      assert s == if s[1] == DOT then DOTDOT_SHORT else DOT_SHORT;
    }
  }

  /** All 8.3 fields of a directory, "." and ".." included, differ exactly when it is
      the root or no child's name folds to dots. */
  lemma FieldsDifferIff(cs: seq<Stub>, first: nat, parent: nat)
    requires DirWritable(cs) && forall i :: 0 <= i < |cs| ==> 0 !in cs[i].name
    ensures AllLong(DirRecords(cs, first, parent))
    ensures AllDifferent(ShortFields(DirRecords(cs, first, parent)))
            <==> parent == 0 || forall i :: 0 <= i < |cs| ==> !FoldsToDots(cs[i].name)
  {
    hide ShortFields, DirRecords, IsDots, FoldsToDots, AssignShorts, LiveShort;
    var names, shorts := NamesOf(cs), AssignShorts(NamesOf(cs), {}).value;
    FieldsOfDirectory(cs, first, parent);
    ShortsDistinct(names, {});
    DotsAmongShorts(names, {});
    forall i | 0 <= i < |shorts| ensures IsDots(shorts[i]) <==> shorts[i] == DOT_SHORT || shorts[i] == DOTDOT_SHORT {
      IsDotsIff(shorts[i]);
    }
    DotsAndShorts(shorts, parent);
    assert forall i :: 0 <= i < |cs| ==> names[i] == cs[i].name;
  }

  lemma DotsAndShorts(shorts: seq<Bytes>, parent: nat)
    requires AllDifferent(shorts)
    ensures AllDifferent(DotFields(parent) + shorts)
            <==> parent == 0 || forall i :: 0 <= i < |shorts| ==> shorts[i] != DOT_SHORT && shorts[i] != DOTDOT_SHORT
  {
    var all := DotFields(parent) + shorts;
    if parent == 0 {
      assert all == shorts;
    } else {
      assert forall i :: 0 <= i < |shorts| ==> all[i + 2] == shorts[i];
      assert all[0] == DOT_SHORT && all[1] == DOTDOT_SHORT && all[0][1] != all[1][1];
    }
  }

  /** A child "..." below the root gets the field of the ".." entry; so does ".. .". */
  lemma ThreeDots(first: nat, parent: nat)
    requires parent != 0
    ensures forall name: Text :: name in {[46, 46, 46], [46, 46, 32, 46]} ==>
      && LegalName(name) && FoldsToDots(name) && DirWritable([Stub(name, false, 0, 0)])
      && AllLong(DirRecords([Stub(name, false, 0, 0)], first, parent))
      && !AllDifferent(ShortFields(DirRecords([Stub(name, false, 0, 0)], first, parent)))
  {
    forall name: Text | name in {[46, 46, 46], [46, 46, 32, 46]}
      ensures LegalName(name) && FoldsToDots(name)
    {
      assert LastDot(name) == |name| - 1;
    }
    forall name: Text | name in {[46, 46, 46], [46, 46, 32, 46]}
      ensures DirWritable([Stub(name, false, 0, 0)]) && AllLong(DirRecords([Stub(name, false, 0, 0)], first, parent))
      ensures !AllDifferent(ShortFields(DirRecords([Stub(name, false, 0, 0)], first, parent)))
    {
      hide DirWritable, AllDifferent, ShortFields, FoldsToDots, DirRecords;
      OneChildWritable(name);
      FieldsDifferIff([Stub(name, false, 0, 0)], first, parent);
    }
  }

  lemma OneChildWritable(name: Text)
    requires LegalName(name)
    ensures DirWritable([Stub(name, false, 0, 0)])
  {
    hide AssignShorts;
    LegalIsEncodable(name);
    SmallDirectory(NamesOf([Stub(name, false, 0, 0)]), {});
  }

  // ---- reading ----

  type ShortField = s: Bytes | |s| == 11 witness Zeros(11)

  datatype Entry = Entry(name: Text, short: ShortField, isDir: bool, first: nat, size: nat)

  /** A short entry, with the long-name records collected before it. */
  function ParseShort(e: Bytes, pending: seq<Bytes>): Result<Entry>
    requires |e| >= 12 && Keyed(pending)
  {
    var long :- LfnDecode(pending, e[..11]);
    if |e| < 32 then Raised
    else
      var name := if long != [] then long else ShortToName(e[..11]);
      Ok(Entry(name, e[..11], e[11] / 16 % 2 == 1, U16(e, 26) + 0x1_0000 * U16(e, 20), U32(e, 28)))
  }

  datatype Scan = Scan(done: bool, pending: seq<Bytes>, entries: seq<Entry>)

  /** The record loop over one cluster's bytes, from `off` on. */
  function ScanCluster(data: Bytes, off: nat, bpc: nat, pending: seq<Bytes>, entries: seq<Entry>): (r: Result<Scan>)
    requires Keyed(pending)
    ensures r.Ok? ==> Keyed(r.value.pending)
    decreases bpc - off
  {
    if off >= bpc then Ok(Scan(false, pending, entries))
    else
      var e := Slice(data, off, off + 32);
      if e == [] then Raised
      else if e[0] == 0 then Ok(Scan(true, pending, entries))
      else if e[0] == 0xE5 then ScanCluster(data, off + 32, bpc, [], entries)
      else if |e| < 12 then Raised
      else if e[11] == ATTR_LFN then ScanCluster(data, off + 32, bpc, pending + [e], entries)
      else
        var entry :- ParseShort(e, pending);
        ScanCluster(data, off + 32, bpc, [], entries + [entry])
  }

  method ParseShortEntry(e: Bytes, pending: seq<Bytes>) returns (r: Result<Entry>)
    requires |e| >= 12 && Keyed(pending)
    ensures r == ParseShort(e, pending)
  {
    var name := DecodeLongName(pending, e[..11]);
    if name.IsFailure() {
      return name.PropagateFailure();
    }
    if |e| < 32 {
      return Raised;
    }
    var shown := if name.value != [] then name.value else ShortToName(e[..11]);
    return Ok(Entry(shown, e[..11], e[11] / 16 % 2 == 1, U16(e, 26) + 0x1_0000 * U16(e, 20), U32(e, 28)));
  }

  method ScanClusterLoop(data: Bytes, bpc: nat, pending0: seq<Bytes>, entries0: seq<Entry>)
    returns (r: Result<Scan>)
    requires Keyed(pending0)
    ensures r == ScanCluster(data, 0, bpc, pending0, entries0)
  {
    var pending, entries := pending0, entries0;
    var off: nat := 0;
    while off < bpc
      invariant Keyed(pending)
      invariant ScanCluster(data, off, bpc, pending, entries) == ScanCluster(data, 0, bpc, pending0, entries0)
    {
      var e := Slice(data, off, off + 32);
      if e == [] {
        return Raised;
      }
      if e[0] == 0 {
        return Ok(Scan(true, pending, entries));
      }
      if e[0] == 0xE5 {
        pending := [];
      } else if |e| < 12 {
        return Raised;
      } else if e[11] == ATTR_LFN {
        pending := pending + [e];
      } else {
        var entry := ParseShortEntry(e, pending);
        if entry.IsFailure() {
          return entry.PropagateFailure();
        }
        pending := [];
        entries := entries + [entry.value];
      }
      off := off + 32;
    }
    return Ok(Scan(false, pending, entries));
  }

  // ---- scanning what was written ----

  /** A whole record that is not an end mark. */
  predicate Full(e: Bytes) { |e| == 32 && e[0] != 0 }

  predicate AllFull(recs: seq<Bytes>) { forall i :: 0 <= i < |recs| ==> Full(recs[i]) }

  /** A whole record that is neither an end mark nor deleted. */
  predicate Live(e: Bytes) { Full(e) && e[0] != 0xE5 }

  predicate AllLive(recs: seq<Bytes>) { forall i :: 0 <= i < |recs| ==> Live(recs[i]) }

  /** The record loop over whole records. */
  function Feed(recs: seq<Bytes>, pending: seq<Bytes>, entries: seq<Entry>): (r: Result<(seq<Bytes>, seq<Entry>)>)
    requires AllFull(recs) && Keyed(pending)
    ensures r.Ok? ==> Keyed(r.value.0)
    decreases |recs|
  {
    if recs == [] then Ok((pending, entries))
    else if recs[0][0] == 0xE5 then Feed(recs[1..], [], entries)
    else if recs[0][11] == ATTR_LFN then Feed(recs[1..], pending + [recs[0]], entries)
    else
      var entry :- ParseShort(recs[0], pending);
      Feed(recs[1..], [], entries + [entry])
  }

  lemma {:induction false} FeedAppend(xs: seq<Bytes>, ys: seq<Bytes>, pending: seq<Bytes>, entries: seq<Entry>)
    requires AllFull(xs) && AllFull(ys) && Keyed(pending)
    ensures AllFull(xs + ys)
    ensures Feed(xs + ys, pending, entries)
            == var r := Feed(xs, pending, entries); if r.Ok? then Feed(ys, r.value.0, r.value.1) else r
    decreases |xs|
  {
    if xs == [] {
      assert xs + ys == ys;
    } else {
      assert (xs + ys)[1..] == xs[1..] + ys;
      if xs[0][0] == 0xE5 {
        FeedAppend(xs[1..], ys, [], entries);
      } else if xs[0][11] == ATTR_LFN {
        FeedAppend(xs[1..], ys, pending + [xs[0]], entries);
      } else {
        var entry := ParseShort(xs[0], pending);
        if entry.Ok? {
          FeedAppend(xs[1..], ys, [], entries + [entry.value]);
        }
      }
    }
  }

  lemma {:induction false} FeedLong(recs: seq<Bytes>, pending: seq<Bytes>, entries: seq<Entry>)
    requires AllLive(recs) && Keyed(pending) && forall i :: 0 <= i < |recs| ==> recs[i][11] == ATTR_LFN
    ensures Feed(recs, pending, entries) == Ok((pending + recs, entries))
    decreases |recs|
  {
    if recs != [] {
      FeedLong(recs[1..], pending + [recs[0]], entries);
      assert pending + [recs[0]] + recs[1..] == pending + recs;
    } else {
      assert pending + recs == pending;
    }
  }

  /** A cluster that holds records `j` up to `m` of `recs` at offsets `32 * j` on. */
  lemma {:induction false} ScanRecords(data: Bytes, recs: seq<Bytes>, j: nat, bpc: nat,
                                       pending: seq<Bytes>, entries: seq<Entry>)
    requires AllFull(recs) && Keyed(pending) && j <= |recs| && 32 * |recs| <= bpc && 32 * |recs| <= |data|
    requires forall i :: j <= i < |recs| ==> data[32 * i..32 * i + 32] == recs[i]
    ensures ScanCluster(data, 32 * j, bpc, pending, entries)
            == var r := Feed(recs[j..], pending, entries);
               if r.Ok? then ScanCluster(data, 32 * |recs|, bpc, r.value.0, r.value.1) else r.PropagateFailure()
    decreases |recs| - j
  {
    hide ParseShort, Slice;
    if j < |recs| {
      var e := Slice(data, 32 * j, 32 * j + 32);
      assert Full(recs[j]);
      assert e == recs[j] && recs[j..][0] == e && recs[j..][1..] == recs[j + 1..];
      if e[0] == 0xE5 {
        ScanRecords(data, recs, j + 1, bpc, [], entries);
      } else if e[11] == ATTR_LFN {
        ScanRecords(data, recs, j + 1, bpc, pending + [e], entries);
      } else {
        var entry := ParseShort(e, pending);
        if entry.Ok? {
          ScanRecords(data, recs, j + 1, bpc, [], entries + [entry.value]);
        }
      }
    }
  }

  /** A deleted record is invisible, and takes the long-name records before it along:
      the listing is that of the other records. */
  lemma DeletedInvisible(before: seq<Bytes>, longs: seq<Bytes>, gone: Bytes, after: seq<Bytes>, entries: seq<Entry>)
    requires AllFull(before) && AllFull(after) && Full(gone) && gone[0] == 0xE5
    requires AllLive(longs) && forall i :: 0 <= i < |longs| ==> longs[i][11] == ATTR_LFN
    requires Feed(before, [], []) == Ok(([], entries))
    ensures AllFull(before + longs + [gone] + after) && AllFull(before + after)
    ensures Feed(before + longs + [gone] + after, [], []) == Feed(before + after, [], [])
  {
    FeedLong(longs, [], entries);
    FeedAppend(before, longs, [], []);
    assert [gone][1..] == [];
    FeedAppend(before + longs, [gone], [], []);
    FeedAppend(before + longs + [gone], after, [], []);
    FeedAppend(before, after, [], []);
  }

  /** Children whose entries read back: a long name the codec keeps, or one that
      is its own 8.3 form. */
  predicate Readable(c: Stub) {
    c.Writable() && c.First() < 0x1_0000_0000 && LegalName(c.name)
  }

  function EntryOf(c: Stub, short: ShortField): Entry { Entry(c.name, short, c.isDir, c.First(), c.size) }

  function EntriesOf(cs: seq<Stub>, shorts: seq<Bytes>): (r: seq<Entry>)
    requires |cs| == |shorts| && forall i :: 0 <= i < |shorts| ==> |shorts[i]| == 11
    ensures |r| == |cs|
  {
    seq(|cs|, i requires 0 <= i < |cs| => EntryOf(cs[i], shorts[i]))
  }

  lemma ChildRecordsLive(c: Stub, short: Bytes)
    requires Readable(c) && LiveShort(short)
    ensures AllLive(ChildRecords(c, short))
  {
    LegalIsEncodable(c.name);
    var e := DirEntry(short, c.Attr(), c.First(), c.size);
    assert e[0] == e[..11][0];
  }

  /** Without long-name records the entry shows its 8.3 form. */
  lemma ParseBare(short: Bytes, attr: Byte, first: nat, size: nat)
    requires |short| == 11 && size < 0x1_0000_0000 && first < 0x1_0000_0000
    ensures ParseShort(DirEntry(short, attr, first, size), [])
            == Ok(Entry(ShortToName(short), short, attr / 16 % 2 == 1, first, size))
  {
    DirEntryFields(short, attr, first, size);
    assert SortByOrd([]) == [];
    assert LfnDecode([], short) == Ok([]);
  }

  /** With its long-name records before it the entry shows its real name. */
  lemma ParseLong(c: Stub, short: Bytes)
    requires Readable(c) && |short| == 11
    ensures ParseShort(DirEntry(short, c.Attr(), c.First(), c.size), LfnRecords(c.name, short))
            == Ok(EntryOf(c, short))
  {
    hide LfnDecode, LfnRecords, DirEntry;
    DirEntryFields(short, c.Attr(), c.First(), c.size);
    LfnRoundTrip(c.name, short);
  }

  lemma FeedChild(c: Stub, short: Bytes, entries: seq<Entry>)
    requires Readable(c) && LiveShort(short)
    ensures AllFull(ChildRecords(c, short))
    ensures Feed(ChildRecords(c, short), [], entries) == Ok(([], entries + [EntryOf(c, short)]))
  {
    ChildRecordsLive(c, short);
    var recs := ChildRecords(c, short);
    var long, e := recs[..|recs| - 1], recs[|recs| - 1];
    assert recs == long + [e];
    assert AllLive(long) && Live(e);
    assert Keyed([]) && [] + long == long;
    FeedLong(long, [], entries);
    FeedAppend(long, [e], [], entries);
    FeedOne(e, long, entries);
    if c.name != ShortToName(short) {
      assert long == LfnRecords(c.name, short);
      ParseLong(c, short);
    } else {
      ParseBare(short, c.Attr(), c.First(), c.size);
    }
  }

  lemma FeedOne(e: Bytes, pending: seq<Bytes>, entries: seq<Entry>)
    requires Live(e) && Keyed(pending) && e[11] != ATTR_LFN
    ensures Feed([e], pending, entries)
            == var r := ParseShort(e, pending);
               if r.Ok? then Ok(([], entries + [r.value])) else r.PropagateFailure()
  {
    assert [e][1..] == [];
  }

  lemma {:induction false} FeedChildren(cs: seq<Stub>, shorts: seq<Bytes>, entries: seq<Entry>)
    requires |cs| == |shorts|
    requires forall i :: 0 <= i < |cs| ==> Readable(cs[i])
    requires forall i :: 0 <= i < |shorts| ==> LiveShort(shorts[i])
    requires Paired(cs, shorts)
    ensures AllFull(AllRecords(cs, shorts))
    ensures Feed(AllRecords(cs, shorts), [], entries) == Ok(([], entries + EntriesOf(cs, shorts)))
    decreases |cs|
  {
    hide ChildRecords, Readable, Full, LiveShort, AllFull, EntriesOf;
    EntriesCons(cs, shorts, entries);
    if cs != [] {
      hide Feed;
      var after := entries + [EntryOf(cs[0], shorts[0])];
      FeedChild(cs[0], shorts[0], entries);
      FeedChildren(cs[1..], shorts[1..], after);
      FeedAppend(ChildRecords(cs[0], shorts[0]), AllRecords(cs[1..], shorts[1..]), [], entries);
    }
  }

  lemma EntriesCons(cs: seq<Stub>, shorts: seq<Bytes>, entries: seq<Entry>)
    requires |cs| == |shorts| && forall i :: 0 <= i < |shorts| ==> |shorts[i]| == 11
    ensures cs == [] ==> entries + EntriesOf(cs, shorts) == entries && AllFull(AllRecords([], []))
    ensures cs != [] ==>
      entries + [EntryOf(cs[0], shorts[0])] + EntriesOf(cs[1..], shorts[1..]) == entries + EntriesOf(cs, shorts)
  {}

  /** The "." and ".." entries, which the listing leaves out by name. */
  function DotEntries(first: nat, parent: nat): seq<Entry> {
    if parent == 0 then []
    else [Entry(DOT_NAME, DOT_SHORT, true, first, 0),
          Entry(DOTDOT_NAME, DOTDOT_SHORT, true, if parent != ROOT_CLUS then parent else 0, 0)]
  }

  lemma DotNames()
    ensures ShortToName(DOT_SHORT) == DOT_NAME && ShortToName(DOTDOT_SHORT) == DOTDOT_NAME
  {
    RStripPadding([46], 7);
    RStripPadding([46, 46], 6);
    RStripPadding([], 3);
    assert DOT_SHORT[..8] == [46] + seq(7, _ => SPACE);
    assert DOTDOT_SHORT[..8] == [46, 46] + seq(6, _ => SPACE);
    assert DOT_SHORT[8..] == [] + seq(3, _ => SPACE) == DOTDOT_SHORT[8..];
  }

  lemma FeedTwo(d: Bytes, dd: Bytes, e: Entry, ee: Entry)
    requires Live(d) && Live(dd) && d[11] != ATTR_LFN && dd[11] != ATTR_LFN
    requires ParseShort(d, []) == Ok(e) && ParseShort(dd, []) == Ok(ee)
    ensures Feed([d, dd], [], []) == Ok(([], [e, ee]))
  {
    hide ParseShort, Feed;
    FeedOne(d, [], []);
    assert [] + [e] == [e] && [e] + [ee] == [e, ee];
    FeedOne(dd, [], [e]);
    FeedAppend([d], [dd], [], []);
    assert [d, dd] == [d] + [dd];
  }

  lemma DotLive(short: Bytes, first: nat)
    requires LiveShort(short)
    ensures Live(DirEntry(short, ATTR_DIRECTORY, first, 0))
  {
    var e := DirEntry(short, ATTR_DIRECTORY, first, 0);
    assert e[0] == e[..11][0];
  }

  lemma FeedDots(first: nat, parent: nat)
    requires first < 0x1_0000_0000 && parent < 0x1_0000_0000
    ensures AllFull(DotRecords(first, parent))
    ensures Feed(DotRecords(first, parent), [], []) == Ok(([], DotEntries(first, parent)))
  {
    if parent != 0 {
      hide Feed, ParseShort, ShortToName, DirEntry, Full;
      var up := if parent != ROOT_CLUS then parent else 0;
      var d, dd := DirEntry(DOT_SHORT, ATTR_DIRECTORY, first, 0), DirEntry(DOTDOT_SHORT, ATTR_DIRECTORY, up, 0);
      DotLive(DOT_SHORT, first);
      DotLive(DOTDOT_SHORT, up);
      DotNames();
      ParseBare(DOT_SHORT, ATTR_DIRECTORY, first, 0);
      ParseBare(DOTDOT_SHORT, ATTR_DIRECTORY, up, 0);
      FeedTwo(d, dd, DotEntries(first, parent)[0], DotEntries(first, parent)[1]);
    }
  }

  /** Scanning all records of a directory gives back "." and "..", then every
      child in order with its name, kind, first cluster and size. */
  lemma FeedDirectory(cs: seq<Stub>, first: nat, parent: nat)
    requires DirWritable(cs) && first < 0x1_0000_0000 && parent < 0x1_0000_0000
    requires forall i :: 0 <= i < |cs| ==> Readable(cs[i])
    ensures AllFull(DirRecords(cs, first, parent))
    ensures Feed(DirRecords(cs, first, parent), [], [])
            == Ok(([], DotEntries(first, parent) + EntriesOf(cs, AssignShorts(NamesOf(cs), {}).value)))
  {
    var shorts := AssignShorts(NamesOf(cs), {}).value;
    ShortsDistinct(NamesOf(cs), {});
    FeedDots(first, parent);
    FeedChildren(cs, shorts, DotEntries(first, parent));
    FeedAppend(DotRecords(first, parent), AllRecords(cs, shorts), [], []);
  }
}
