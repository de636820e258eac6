/** From an empty buffer to a finished image, and what the image then holds. */
module FormatImage {
  import opened ByteStrings
  import opened Geometry
  import opened Layout
  import opened Splices
  import opened Schedule
  import opened Writer
  import opened CreateImage

  const FAT_START := 16384
  const BACKUP := 3072

  function FatSectors(tot: int): nat { Max(1, Need(Clusters(tot, RSVD_SEC_CNT, NUM_FATS, SEC_PER_CLUS, 1))) }

  function ClusterCount(tot: int): int { Clusters(tot, RSVD_SEC_CNT, NUM_FATS, SEC_PER_CLUS, FatSectors(tot)) }

  // ---- what a finished image holds ----

  /** A FAT at offset `at`: the two reserved entries and every link of `fat`. */
  ghost predicate HoldsFat(img: Bytes, at: nat, fat: map<nat, nat>) {
    && at + 8 <= |img| && U32(img, at) == 0x0FFF_FFF8 && U32(img, at + 4) == 0x0FFF_FFFF
    && forall c: nat :: c in fat ==> at + 4 * c + 4 <= |img| && U32(img, at + 4 * c) == fat[c]
  }

  /** The FAT at offset `at` marks every other cluster as free. */
  ghost predicate RestFree(img: Bytes, at: nat, fatSec: nat, fat: map<nat, nat>) {
    forall c: nat :: c !in fat && ROOT_CLUS <= c && 4 * c + 4 <= fatSec * 512 ==>
      at + 4 * c + 4 <= |img| && U32(img, at + 4 * c) == 0
  }

  /** Nothing but zeros between FSInfo and the backup, and from there up to `end`. */
  ghost predicate Quiet(img: Bytes, end: nat) {
    forall k: nat :: (2 * SECTOR <= k < BACKUP || BACKUP + SECTOR <= k < end) && k < |img| ==> img[k] == 0
  }

  /** The reserved sectors: boot sector, FSInfo, backup boot sector, and zeros. */
  ghost predicate BootRegion(img: Bytes, tot: nat, fatSec: nat) {
    && FAT_START <= |img|
    && HasBpb(img, tot, 32, 2, fatSec, 2) && HasFsInfo(img[SECTOR..2 * SECTOR])
    && img[BACKUP..BACKUP + SECTOR] == img[..SECTOR] && Quiet(img, FAT_START)
  }

  /** The reserved sectors and both copies of the FAT. */
  ghost predicate Formatted(img: Bytes, tot: nat, fatSec: nat, fat: map<nat, nat>) {
    && BootRegion(img, tot, fatSec)
    && HoldsFat(img, FAT_START, fat) && RestFree(img, FAT_START, fatSec, fat)
    && HoldsFat(img, FAT_START + fatSec * 512, fat) && RestFree(img, FAT_START + fatSec * 512, fatSec, fat)
  }

  /** The image carries the directories of the laid-out tree: metadata, and every byte
      of every directory at its own clusters. */
  ghost predicate CarriesDirectories(img: Bytes, root: Item, tot: nat, fatSec: nat)
    requires Linked(root, 0)
  {
    Formatted(img, tot, fatSec, FatOf(root)) && forall w :: w in DirWrites(root, 0, fatSec) ==> Holds(img, w)
  }

  /** The image carries the laid-out tree: metadata, every byte of every directory and
      file at its own clusters, and zeros in the rest of the data region. */
  ghost predicate Represents(img: Bytes, root: Item, tot: nat, fatSec: nat)
    requires Linked(root, 0)
  {
    && Formatted(img, tot, fatSec, FatOf(root))
    && (forall w :: w in AllWrites(root, fatSec) ==> Holds(img, w))
    && ZeroElsewhere(img, Base(fatSec), AllWrites(root, fatSec))
  }

  /** FSInfo and the backup boot sector lie in the sectors the boot sector names. */
  lemma NamedSectors(img: Bytes, tot: nat, fatSec: nat)
    requires BootRegion(img, tot, fatSec)
    ensures var info, backup := 512 * U16(img, 48), 512 * U16(img, 50);
      && info == 512 && backup == 3072
      && HasFsInfo(img[info..info + 512]) && img[backup..backup + 512] == img[..512]
  {
    hide HasFsInfo, Quiet;
    var names := img[48..52];
    assert img[48] == names[0] && img[49] == names[1] && img[50] == names[2] && img[51] == names[3];
  }

  // ---- the FAT ----

  predicate Links(fat: map<nat, nat>) {
    forall c: nat :: c in fat ==> fat[c] == EOC || fat[c] == c + 1
  }

  /** Every link of a laid-out tree leads to the next cluster or ends a chain. */
  lemma {:induction false} FatLinks(t: Item)
    ensures Links(FatOf(t))
    decreases t, 0
  {
    if t.DirItem? { FatLinksList(t.children); }
  }

  lemma {:induction false} FatLinksList(ts: seq<Item>)
    ensures Links(FatOfList(ts))
    decreases ts, 1
  {
    if ts != [] {
      FatLinks(ts[0]);
      FatLinksList(ts[1..]);
    }
  }

  /** One FAT as bytes; None where the allocator ran past what the FAT can hold. */
  method FatBytes(fat: map<nat, nat>, nextClus: nat, fatSec: nat) returns (r: Option<Bytes>)
    requires 0 < fatSec < 0x200_0000 && nextClus >= ROOT_CLUS
    requires forall c: nat :: c in fat <==> ROOT_CLUS <= c < nextClus
    requires Links(fat)
    ensures r.Some? <==> 4 * nextClus <= fatSec * 512 || nextClus == ROOT_CLUS
    ensures r.Some? ==> |r.value| == fatSec * 512 && HoldsFat(r.value, 0, fat) && RestFree(r.value, 0, fatSec, fat)
  {
    hide U32, Poke, Le32;
    var raw := Zeros(fatSec * 512);
    U32OfZeros(raw);
    for c := ROOT_CLUS to nextClus
      invariant |raw| == fatSec * 512 && (c == ROOT_CLUS || 4 * c <= |raw|)
      invariant forall k: nat :: ROOT_CLUS <= k < c ==> U32(raw, 4 * k) == fat[k]
      invariant forall k: nat :: c <= k && 4 * k + 4 <= |raw| ==> U32(raw, 4 * k) == 0
    {
      if 4 * c + 4 > |raw| {
        return None;
      }
      PokedU32(raw, 4 * c, fat[c]);
      raw := Poke(raw, 4 * c, Le32(fat[c]));
    }
    PokedU32(raw, 0, FAT0);
    raw := Poke(raw, 0, Le32(FAT0));
    PokedU32(raw, 4, EOC);
    raw := Poke(raw, 4, Le32(EOC));
    return Some(raw);
  }

  lemma U32OfZeros(raw: Bytes)
    requires forall k :: 0 <= k < |raw| ==> raw[k] == 0
    ensures forall k: nat :: 4 * k + 4 <= |raw| ==> U32(raw, 4 * k) == 0
  {}

  lemma FatTransfers(raw: Bytes, img: Bytes, at: nat, fatSec: nat, fat: map<nat, nat>)
    requires |raw| == fatSec * 512 && at + |raw| <= |img| && img[at..at + |raw|] == raw
    requires HoldsFat(raw, 0, fat) && RestFree(raw, 0, fatSec, fat)
    ensures HoldsFat(img, at, fat) && RestFree(img, at, fatSec, fat)
  {
    assert forall k :: 0 <= k < |raw| ==> img[at + k] == raw[k];
  }

  // ---- the boot region ----

  /** The first three writes: the 513-byte boot sector twice and FSInfo between,
      which leave the image two bytes longer. */
  function BootImage(size: nat, bpb: Bytes, fsinfo: Bytes): Bytes {
    Splice(Splice(Splice(Zeros(size), 0, SECTOR, bpb), SECTOR, 2 * SECTOR, fsinfo), BACKUP, BACKUP + SECTOR, bpb)
  }

  lemma BootImageShape(size: nat, bpb: Bytes, fsinfo: Bytes)
    requires size >= FAT_START && |bpb| == SECTOR + 1 && bpb[SECTOR] == 0 && |fsinfo| == SECTOR
    ensures var img := BootImage(size, bpb, fsinfo);
      && |img| == size + 2 && img[..SECTOR] == bpb[..SECTOR] && img[SECTOR..2 * SECTOR] == fsinfo
      && img[BACKUP..BACKUP + SECTOR] == bpb[..SECTOR] && Quiet(img, |img|)
  {
    hide Splice, Quiet;
    FirstSector(size, bpb);
    SecondSector(bpb, fsinfo, size - SECTOR);
    BackupSector(bpb, fsinfo, size + 1 - 2 * SECTOR);
    BootParts(bpb, fsinfo, size + 1 - BACKUP - SECTOR);
  }

  lemma FirstSector(size: nat, bpb: Bytes)
    requires size >= FAT_START
    ensures Splice(Zeros(size), 0, SECTOR, bpb) == bpb + Zeros(size - SECTOR)
  {}

  lemma SecondSector(bpb: Bytes, fsinfo: Bytes, rest: nat)
    requires |bpb| == SECTOR + 1 && |fsinfo| == SECTOR && rest >= SECTOR
    ensures Splice(bpb + Zeros(rest), SECTOR, 2 * SECTOR, fsinfo) == bpb[..SECTOR] + fsinfo + Zeros(rest + 1 - SECTOR)
  {
    var one := bpb + Zeros(rest);
    assert one[..SECTOR] == bpb[..SECTOR];
    assert one[2 * SECTOR..] == Zeros(rest + 1 - SECTOR);
  }

  lemma BackupSector(bpb: Bytes, fsinfo: Bytes, rest: nat)
    requires |bpb| == SECTOR + 1 && |fsinfo| == SECTOR && rest >= BACKUP
    ensures Splice(bpb[..SECTOR] + fsinfo + Zeros(rest), BACKUP, BACKUP + SECTOR, bpb)
            == bpb[..SECTOR] + fsinfo + Zeros(BACKUP - 2 * SECTOR) + bpb + Zeros(rest + SECTOR - BACKUP)
  {
    var head := bpb[..SECTOR] + fsinfo;
    var two := head + Zeros(rest);
    assert two[..BACKUP] == head + Zeros(BACKUP - 2 * SECTOR);
    assert two[BACKUP + SECTOR..] == Zeros(rest + SECTOR - BACKUP);
  }

  lemma BootParts(bpb: Bytes, fsinfo: Bytes, rest: nat)
    requires |bpb| == SECTOR + 1 && bpb[SECTOR] == 0 && |fsinfo| == SECTOR
    ensures var img := bpb[..SECTOR] + fsinfo + Zeros(BACKUP - 2 * SECTOR) + bpb + Zeros(rest);
      && |img| == BACKUP + SECTOR + 1 + rest
      && img[..SECTOR] == bpb[..SECTOR] && img[SECTOR..2 * SECTOR] == fsinfo
      && img[BACKUP..BACKUP + SECTOR] == bpb[..SECTOR] && Quiet(img, |img|)
  {
    var img := bpb[..SECTOR] + fsinfo + Zeros(BACKUP - 2 * SECTOR) + bpb + Zeros(rest);
    assert forall k :: 0 <= k < SECTOR ==>
        img[k] == bpb[k] && img[SECTOR + k] == fsinfo[k] && img[BACKUP + k] == bpb[k];
  }

  /** Both copies of the FAT in place; nothing else moves. */
  lemma FatsInPlace(img: Bytes, raw: Bytes, fatSec: nat)
    requires |raw| == fatSec * 512 && Base(fatSec) <= |img|
    ensures var done := Splice(Splice(img, FAT_START, FAT_START + |raw|, raw),
                               FAT_START + |raw|, FAT_START + 2 * |raw|, raw);
      && |done| == |img| && done[..FAT_START] == img[..FAT_START]
      && done[FAT_START..FAT_START + |raw|] == raw
      && done[FAT_START + |raw|..FAT_START + 2 * |raw|] == raw
      && done[Base(fatSec)..] == img[Base(fatSec)..]
  {
    var one := Splice(img, FAT_START, FAT_START + |raw|, raw);
    var m := FAT_START + |raw|;
    assert one == img[..FAT_START] + raw + img[m..];
    var done := Splice(one, m, m + |raw|, raw);
    assert done == one[..m] + raw + one[m + |raw|..];
    assert one[..m] == img[..FAT_START] + raw;
    assert one[m + |raw|..] == img[m + |raw|..];
    assert Base(fatSec) == m + |raw|;
  }

  lemma SameTailHolds(a: Bytes, b: Bytes, lo: nat, w: Write)
    requires |a| == |b| && lo <= |a| && a[lo..] == b[lo..] && lo <= w.off
    ensures Holds(a, w) <==> Holds(b, w)
  {
    if w.off + |w.bytes| <= |a| {
      SameTail(a, b, lo, w.off, w.off + |w.bytes|);
    }
  }

  lemma BpbTransfers(a: Bytes, b: Bytes, tot: int, fatSec: int)
    requires HasBpb(a, tot, RSVD_SEC_CNT, NUM_FATS, fatSec, ROOT_CLUS) && 512 <= |b| && a[..512] == b[..512]
    ensures HasBpb(b, tot, RSVD_SEC_CNT, NUM_FATS, fatSec, ROOT_CLUS)
  {
    assert forall k :: 0 <= k < 512 ==> a[k] == a[..512][k] == b[..512][k] == b[k];
  }

  lemma BootTransfers(a: Bytes, b: Bytes, tot: nat, fatSec: nat)
    requires BootRegion(a, tot, fatSec) && FAT_START <= |b| && a[..FAT_START] == b[..FAT_START]
    ensures BootRegion(b, tot, fatSec)
  {
    hide HasBpb, HasFsInfo;
    SamePart(a, b, FAT_START, 0, SECTOR);
    SamePart(a, b, FAT_START, SECTOR, 2 * SECTOR);
    SamePart(a, b, FAT_START, BACKUP, BACKUP + SECTOR);
    BpbTransfers(a, b, tot, fatSec);
    assert forall k :: 0 <= k < FAT_START ==> b[k] == b[..FAT_START][k] == a[..FAT_START][k] == a[k];
  }

  /** The metadata of the finished image: the reserved sectors and both FATs. */
  lemma MetadataInPlace(boot: Bytes, data: Bytes, raw: Bytes, done: Bytes, fat: map<nat, nat>, tot: nat, fatSec: nat)
    requires Base(fatSec) <= |boot| && BootRegion(boot, tot, fatSec)
    requires |raw| == fatSec * 512 && HoldsFat(raw, 0, fat) && RestFree(raw, 0, fatSec, fat)
    requires Base(fatSec) <= |data| && data[..Base(fatSec)] == boot[..Base(fatSec)]
    requires done == Splice(Splice(data, FAT_START, FAT_START + |raw|, raw),
                            FAT_START + |raw|, FAT_START + 2 * |raw|, raw)
    ensures |done| == |data| && done[Base(fatSec)..] == data[Base(fatSec)..]
    ensures Formatted(done, tot, fatSec, fat)
  {
    hide HoldsFat, RestFree, BootRegion;
    FatsInPlace(data, raw, fatSec);
    hide Splice;
    SamePart(data, boot, Base(fatSec), 0, FAT_START);
    BootTransfers(boot, done, tot, fatSec);
    FatTransfers(raw, done, FAT_START, fatSec, fat);
    FatTransfers(raw, done, FAT_START + |raw|, fatSec, fat);
  }

  lemma ZeroTransfers(a: Bytes, b: Bytes, lo: nat, ws: seq<Write>)
    requires |a| == |b| && lo <= |a| && a[lo..] == b[lo..] && ZeroElsewhere(a, lo, ws)
    ensures ZeroElsewhere(b, lo, ws)
  {
    hide Touched;
    assert forall k :: lo <= k < |a| ==> a[k] == a[lo..][k - lo] == b[lo..][k - lo] == b[k];
  }

  lemma QuietIsZero(boot: Bytes, lo: nat)
    requires Quiet(boot, |boot|) && BACKUP + SECTOR <= lo
    ensures ZeroElsewhere(boot, lo, [])
  {}

  /** The finished image represents the tree exactly when every data write lands. */
  lemma FinishedImage(boot: Bytes, done: Bytes, root: Item, tot: nat, fatSec: nat)
    requires Linked(root, 0) && root.DirItem? && Tiled(root, ROOT_CLUS) && Base(fatSec) <= |boot|
    requires Quiet(boot, |boot|)
    requires var data := ApplyAll(boot, AllWrites(root, fatSec));
      |done| == |data| && Base(fatSec) <= |data| && done[Base(fatSec)..] == data[Base(fatSec)..]
    requires Formatted(done, tot, fatSec, FatOf(root))
    ensures Represents(done, root, tot, fatSec) <==> Lands(|boot|, AllWrites(root, fatSec))
    ensures End(AllWrites(root, fatSec)) <= |done| <==> Lands(|boot|, AllWrites(root, fatSec))
  {
    hide AllWrites, End, FatOf, Linked, Formatted, Orderly, ApplyAll, Tiled, Holds, Lands, ZeroElsewhere, Quiet;
    var ws := AllWrites(root, fatSec);
    var data := ApplyAll(boot, ws);
    AllWritesOrderly(root, fatSec);
    HoldsIffLands(boot, ws);
    InsideIffLands(boot, ws);
    forall w | w in ws ensures Holds(done, w) <==> Holds(data, w) {
      SameTailHolds(done, data, Base(fatSec), w);
    }
    if Lands(|boot|, ws) {
      QuietIsZero(boot, Base(fatSec));
      assert [] + ws == ws;
      LandingPads(boot, Base(fatSec), [], ws);
      ZeroTransfers(data, done, Base(fatSec), ws);
    }
  }

  /** Every region whose own write landed is in the finished image, whatever the others
      do. */
  lemma FinishedRegions(boot: Bytes, done: Bytes, root: Item, fatSec: nat)
    requires Linked(root, 0) && root.DirItem? && Tiled(root, ROOT_CLUS) && Base(fatSec) <= |boot|
    requires var data := ApplyAll(boot, AllWrites(root, fatSec));
      |done| == |data| && Base(fatSec) <= |data| && done[Base(fatSec)..] == data[Base(fatSec)..]
    ensures LandedHold(done, |boot|, AllWrites(root, fatSec))
  {
    hide AllWrites, Linked, Orderly, ApplyAll, Tiled, Holds, LandsAt;
    var ws := AllWrites(root, fatSec);
    AllWritesOrderly(root, fatSec);
    forall i | 0 <= i < |ws| && LandsAt(|boot|, ws, i)
      ensures Holds(done, ws[i])
    {
      LandedHolds(boot, ws, i);
      assert ws[i] in ws;
      SameTailHolds(done, ApplyAll(boot, ws), Base(fatSec), ws[i]);
    }
  }

  /** So it carries the directories as soon as their writes land. */
  lemma FinishedDirectories(done: Bytes, root: Item, tot: nat, fatSec: nat, len: nat)
    requires Linked(root, 0) && Formatted(done, tot, fatSec, FatOf(root))
    requires LandedHold(done, len, AllWrites(root, fatSec)) && Lands(len, DirWrites(root, 0, fatSec))
    ensures CarriesDirectories(done, root, tot, fatSec)
  {
    hide DirWrites, FileWrites, FatOf, Linked, Formatted, Holds, Lands, LandedHold;
    PrefixHolds(done, len, DirWrites(root, 0, fatSec), FileWrites(root, fatSec));
  }

  // ---- create_image ----

  /** The sizes the boot sector and the firmware accept. */
  predicate GoodSize(tot: int) { 0 <= tot < 0x1_0000_0000 && ClusterCount(tot) >= FAT32_MIN_CLUSTERS }

  /** The outcome for a laid-out tree: an image unless the clusters handed out overrun
      the FAT. */
  ghost predicate Made(r: Option<Bytes>, item: Item, tot: nat, fatSec: nat)
    requires Linked(item, 0)
  {
    && (r.Some? <==> 4 * (ROOT_CLUS + Used(item)) <= fatSec * 512)
    && (r.Some? ==> MadeImage(r.value, item, tot, fatSec))
  }

  /** The image: formatted; holding every region whose own write landed, hence carrying
      the directories as soon as their writes land; carrying the whole tree exactly when
      every write lands; as long as the writes leave it, which reaches to the last byte
      written exactly when every write lands, and is then known in closed form. */
  ghost predicate MadeImage(img: Bytes, item: Item, tot: nat, fatSec: nat)
    requires Linked(item, 0)
  {
    var len, ws := tot * 512 + 2, AllWrites(item, fatSec);
    && Formatted(img, tot, fatSec, FatOf(item))
    && LandedHold(img, len, ws)
    && (Lands(len, DirWrites(item, 0, fatSec)) ==> CarriesDirectories(img, item, tot, fatSec))
    && (Represents(img, item, tot, fatSec) <==> Lands(len, ws))
    && |img| == LenAll(len, ws)
    && (End(ws) <= |img| <==> Lands(len, ws))
    && (Lands(len, ws) ==> |img| == FinalLength(item, tot, fatSec))
  }

  function FinalLength(item: Item, tot: nat, fatSec: nat): int
    requires Linked(item, 0)
  {
    Max(tot * 512 + 2 - Shortfall(item, 0), End(AllWrites(item, fatSec)))
  }

  /** The finished image has the nominal length exactly when its last written byte is
      the volume's last byte. */
  lemma NominalLengthIff(item: Item, tot: nat, fatSec: nat)
    requires item.DirItem? && Linked(item, 0)
    ensures FinalLength(item, tot, fatSec) == tot * 512 <==> End(AllWrites(item, fatSec)) == tot * 512
  {
    hide Linked, Shortfall, AllWrites, End;
    ShortfallAtLeast(item, 0);
  }

  lemma Sizes(tot: int)
    requires GoodSize(tot)
    ensures 0 < FatSectors(tot) < 0x200_0000
    ensures Base(FatSectors(tot)) + ClusterCount(tot) * CLUSTER <= tot * 512
    ensures (ClusterCount(tot) + 2) * 4 <= FatSectors(tot) * 512
  {}

  method SizeVolume(tot: int) returns (fatSec: nat, clus: int)
    ensures fatSec == FatSectors(tot) && clus == ClusterCount(tot)
  {
    fatSec, clus := FatSzFor(tot, RSVD_SEC_CNT, NUM_FATS, SEC_PER_CLUS);
  }

  /** `create_image`; None where it raises or exits. */
  method Create(root: Node, sizeMb: int) returns (r: Option<Bytes>)
    requires root.Valid() && root.isDir
    modifies root.repr
    ensures var tot, item := sizeMb * 2048, LayoutRoot(root.tree);
      if GoodSize(tot) && TreeWritable(root.tree) then
        Linked(item, 0) && root.Is(item) && Made(r, item, tot, FatSectors(tot))
      else r.None?
  {
    hide FatSectors, ClusterCount, LayoutRoot, TreeWritable, Made, Linked, Node.Valid, Node.Is;
    var tot := sizeMb * 2048;
    var fatSec, clus := SizeVolume(tot);
    if clus < FAT32_MIN_CLUSTERS || tot >= 0x1_0000_0000 {
      return None;
    }
    NotNegative(tot);
    Sizes(tot);
    r := Build(root, tot, fatSec);
  }

  lemma NotNegative(tot: int)
    requires ClusterCount(tot) >= FAT32_MIN_CLUSTERS
    ensures tot >= 0
  {}

  /** Volumes of 257 MB up to the 32-bit sector count are accepted, and no others: a
      volume needs at least 525258 sectors. */
  lemma AcceptedSizes(tot: int)
    ensures GoodSize(tot) <==> 525258 <= tot < 0x1_0000_0000
    ensures forall mb: int :: tot == 2048 * mb ==> (GoodSize(tot) <==> 257 <= mb < 0x20_0000)
  {}

  /** What `create_image` does once the size is accepted. */
  method Build(root: Node, tot: nat, fatSec: nat) returns (r: Option<Bytes>)
    requires root.Valid() && root.isDir && tot < 0x1_0000_0000 && 0 < fatSec < 0x200_0000
    requires Base(fatSec) <= tot * 512
    modifies root.repr
    ensures var item := LayoutRoot(root.tree);
      if TreeWritable(root.tree) then Linked(item, 0) && root.Is(item) && Made(r, item, tot, fatSec)
      else r.None?
  {
    hide TreeWritable, FatOf, LayoutOne, LayoutRoot, Used, Made, Node.Valid, Node.Is, Linked, BootRegion, Quiet, Ready;
    NodeParts(root);
    var boot := BootSectors(tot, fatSec);
    var writer := new ImageWriter(boot, fatSec);
    var ok := writer.LayoutDir(root, 0);
    if !ok {
      return None;
    }
    ghost var item := LayoutRoot(root.tree);
    LayoutReady(root.tree);
    r := Finish(writer, root, item, boot, tot, fatSec);
  }

  /** Directories first, then files: together the whole schedule, none of it below
      the data region. */
  lemma AllInOrder(boot: Bytes, item: Item, fatSec: nat)
    requires Linked(item, 0) && item.DirItem? && Tiled(item, ROOT_CLUS) && Base(fatSec) <= |boot|
    ensures var data := ApplyAll(ApplyAll(boot, DirWrites(item, 0, fatSec)), FileWrites(item, fatSec));
      && data == ApplyAll(boot, AllWrites(item, fatSec))
      && Base(fatSec) <= |data| && data[..Base(fatSec)] == boot[..Base(fatSec)]
  {
    AllWritesOrderly(item, fatSec);
    hide Linked, Tiled, DirWrites, FileWrites, ApplyAll;
    ApplyAllAppend(boot, DirWrites(item, 0, fatSec), FileWrites(item, fatSec));
    ApplyAllPrefix(boot, Base(fatSec), AllWrites(item, fatSec));
  }

  /** Directory entries, file contents and FATs, once the tree is laid out. */
  method Finish(writer: ImageWriter, root: Node, ghost item: Item, ghost boot: Bytes, ghost tot: nat, fatSec: nat)
    returns (r: Option<Bytes>)
    requires root.Valid() && root.isDir && root.Is(item)
    requires Ready(item)
    requires writer.img == boot && writer.fatSec == fatSec
    requires writer.fat == FatOf(item) && writer.nextClus == ROOT_CLUS + Used(item)
    requires |boot| == tot * 512 + 2 && 0 < fatSec < 0x200_0000 && Base(fatSec) <= |boot|
    requires BootRegion(boot, tot, fatSec) && Quiet(boot, |boot|)
    modifies writer
    ensures Made(r, item, tot, fatSec)
  {
    hide FatOf, Used, Shortfall, Node.Valid, Node.Is, Linked, AllWrites, Lands, ApplyAll, Splice, HoldsFat, RestFree,
         BootRegion, Quiet, Formatted, Represents, CarriesDirectories, Tiled, Links, DirWrites, FileWrites, DirClusters,
         End, LenAll, LandedHold;
    writer.WriteAllDirEntries(root, item, 0);
    writer.WriteFiles(root, item);
    AllInOrder(boot, item, fatSec);
    var data := writer.img;
    var fat := FatBytes(writer.fat, writer.nextClus, fatSec);
    if fat.None? {
      return None;
    }
    var raw := fat.value;
    var img := Splice(data, FAT_START, FAT_START + |raw|, raw);
    img := Splice(img, FAT_START + |raw|, FAT_START + 2 * |raw|, raw);
    MetadataInPlace(boot, data, raw, img, FatOf(item), tot, fatSec);
    FinishedImage(boot, img, item, tot, fatSec);
    FinishedRegions(boot, img, item, fatSec);
    LenAllIs(boot, AllWrites(item, fatSec));
    if Lands(|boot|, AllWrites(item, fatSec)) {
      LandedTreeLength(item, fatSec, boot);
    }
    if Lands(|boot|, DirWrites(item, 0, fatSec)) {
      FinishedDirectories(img, item, tot, fatSec, |boot|);
    }
    return Some(img);
  }

  /** A root item as layout leaves it. */
  ghost predicate Ready(item: Item) {
    && item.DirItem? && Linked(item, 0) && Tiled(item, ROOT_CLUS) && Used(item) >= 1 && Links(FatOf(item))
    && forall c: nat :: c in FatOf(item) <==> ROOT_CLUS <= c < ROOT_CLUS + Used(item)
  }

  lemma LayoutReady(t: Tree)
    requires t.Dir? && TreeWritable(t)
    ensures var item := LayoutRoot(t);
      Ready(item) && Linked(item, 0) && LayoutOne(t, 0, ROOT_CLUS) == (item, ROOT_CLUS + Used(item))
  {
    hide TreeWritable, DirClusters, Chained, Bare, ClustersOf, FatOf, Linked;
    LayoutTheorem(t);
    FatLinks(LayoutRoot(t));
  }

  method BootSectors(tot: nat, fatSec: nat) returns (img: Bytes)
    requires tot < 0x1_0000_0000 && 0 < fatSec < 0x200_0000 && Base(fatSec) <= tot * 512
    ensures |img| == tot * 512 + 2 && BootRegion(img, tot, fatSec) && Quiet(img, |img|)
  {
    var bpb := BpbBytes(tot, RSVD_SEC_CNT, NUM_FATS, fatSec, ROOT_CLUS);
    var fsinfo := FsInfoBytes();
    hide Splice, HasBpb, Quiet;
    img := Zeros(tot * SECTOR);
    img := Splice(img, 0, SECTOR, bpb);
    img := Splice(img, SECTOR, 2 * SECTOR, fsinfo);
    img := Splice(img, BACKUP, BACKUP + SECTOR, bpb);
    BootImageShape(tot * SECTOR, bpb, fsinfo);
    BpbTransfers(bpb, img, tot, fatSec);
    QuietBelow(img, FAT_START);
  }

  lemma QuietBelow(img: Bytes, end: nat)
    requires Quiet(img, |img|)
    ensures Quiet(img, end)
  {}
}
