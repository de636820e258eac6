/** Volume geometry: sizing the FAT, writing the boot sector, and reading it back
    (Microsoft FAT32 File System Specification, section 3.2). */
module Geometry {
  import opened ByteStrings
  import opened Results

  const SECTOR := 512
  const SEC_PER_CLUS := 8
  const CLUSTER: nat := SECTOR * SEC_PER_CLUS
  const RSVD_SEC_CNT := 32
  const NUM_FATS := 2
  const ROOT_CLUS := 2
  const FAT32_MIN_CLUSTERS := 0xFFF5
  const EOC := 0x0FFF_FFFF
  const FAT0 := 0x0FFF_FFF8

  /** Clusters that hold `size` bytes. */
  function ClustersFor(size: nat): (n: nat)
    ensures size <= n * CLUSTER < size + CLUSTER && (n == 0 <==> size == 0)
  {
    CeilDiv(size, CLUSTER)
  }

  lemma OneCluster(size: nat)
    requires 1 <= size <= CLUSTER
    ensures ClustersFor(size) == 1
  {}

  /** A cluster has room for 128 records; the end mark needs one byte more. */
  lemma RecordClusters(n: nat)
    ensures ClustersFor(32 * n + 1) == n / 128 + 1
  {}

  // ---- fat_sz_for ----

  /** Data clusters left over when each FAT takes `fatSec` sectors. */
  function Clusters(tot: int, rsvd: int, numFats: nat, spc: nat, fatSec: int): int
    requires spc > 0
  {
    (tot - rsvd - numFats * fatSec) / spc
  }

  /** FAT sectors that many clusters need, the two reserved entries included. */
  function Need(clus: int): int {
    ((clus + 2) * 4 + SECTOR - 1) / SECTOR
  }

  predicate Sufficient(tot: int, rsvd: int, numFats: nat, spc: nat, fatSec: int)
    requires spc > 0
  {
    Need(Clusters(tot, rsvd, numFats, spc, fatSec)) <= fatSec
  }

  lemma DivBounds(a: int, s: nat)
    requires s > 0
    ensures a / s * s <= a < a / s * s + s
  {
    assert a == a / s * s + a % s;
  }

  lemma QuotientAtMost(a: int, s: nat, q: int)
    requires s > 0 && a < (q + 1) * s
    ensures a / s <= q
  {
    DivBounds(a, s);
    if q + 1 <= a / s {
      ScaleMonotone(q + 1, a / s, s);
      assert false;
    }
  }

  lemma ScaleMonotone(x: int, y: int, s: nat)
    requires x <= y
    ensures x * s <= y * s
  {}

  /** A larger FAT leaves no more clusters, and loses at most `CeilDiv(numFats * d, spc)`. */
  lemma ClustersShrink(tot: int, rsvd: int, numFats: nat, spc: nat, f: int, d: nat)
    requires spc > 0
    ensures Clusters(tot, rsvd, numFats, spc, f + d) <= Clusters(tot, rsvd, numFats, spc, f)
    ensures Clusters(tot, rsvd, numFats, spc, f)
            <= Clusters(tot, rsvd, numFats, spc, f + d) + CeilDiv(numFats * d, spc)
  {
    var a, lost := tot - rsvd - numFats * f, numFats * d;
    assert tot - rsvd - numFats * (f + d) == a - lost;
    QuotientShrinks(a, lost, spc);
  }

  lemma QuotientShrinks(a: int, lost: nat, s: nat)
    requires s > 0
    ensures (a - lost) / s <= a / s <= (a - lost) / s + CeilDiv(lost, s)
  {
    var p, q := (a - lost) / s, CeilDiv(lost, s);
    DivBounds(a, s);
    DivBounds(a - lost, s);
    assert (a / s + 1) * s == a / s * s + s;
    QuotientAtMost(a - lost, s, a / s);
    assert (p + q + 1) * s == p * s + q * s + s;
    QuotientAtMost(a, s, p + q);
  }

  lemma NeedGrows(c: int, d: nat)
    ensures Need(c) <= Need(c + d) <= Need(c) + CeilDiv(4 * d, SECTOR)
  {}

  /** Sufficiency is upward closed. */
  lemma SufficientUpward(tot: int, rsvd: int, numFats: nat, spc: nat, f: int, g: int)
    requires spc > 0 && f <= g && Sufficient(tot, rsvd, numFats, spc, f)
    ensures Sufficient(tot, rsvd, numFats, spc, g)
  {
    hide Clusters, Need;
    var c, d := Clusters(tot, rsvd, numFats, spc, f), Clusters(tot, rsvd, numFats, spc, g);
    ClustersShrink(tot, rsvd, numFats, spc, f, g - f);
    NeedGrows(d, c - d);
  }

  /** The least sufficient size of at least one sector: the fixed point the sizing
      loop is described as looking for. */
  ghost predicate Least(tot: int, rsvd: int, numFats: nat, spc: nat, fatSec: int)
    requires spc > 0
  {
    && Sufficient(tot, rsvd, numFats, spc, fatSec)
    && forall f :: 1 <= f < fatSec ==> !Sufficient(tot, rsvd, numFats, spc, f)
  }

  /** A sufficient size is the least exactly when one sector less is not sufficient. */
  lemma LeastIff(tot: int, rsvd: int, numFats: nat, spc: nat, fatSec: int)
    requires spc > 0 && 1 <= fatSec && Sufficient(tot, rsvd, numFats, spc, fatSec)
    ensures Least(tot, rsvd, numFats, spc, fatSec) <==> fatSec == 1 || !Sufficient(tot, rsvd, numFats, spc, fatSec - 1)
  {
    hide Sufficient;
    forall f | 1 <= f < fatSec && Sufficient(tot, rsvd, numFats, spc, f)
      ensures Sufficient(tot, rsvd, numFats, spc, fatSec - 1)
    {
      SufficientUpward(tot, rsvd, numFats, spc, f, fatSec - 1);
    }
  }

  /** By how much the loop may overshoot a sufficient size `f`: the sectors for the
      clusters that `f - 1` more FAT sectors cost. */
  function Overshoot(numFats: nat, spc: nat, f: nat): nat
    requires spc > 0 && f > 0
  {
    var lost: nat := numFats * (f - 1);
    CeilDiv(4 * CeilDiv(lost, spc), SECTOR)
  }

  lemma NearlyLeast(tot: int, rsvd: int, numFats: nat, spc: nat, f: nat)
    requires spc > 0 && 1 <= f && Sufficient(tot, rsvd, numFats, spc, f)
    ensures Need(Clusters(tot, rsvd, numFats, spc, 1)) <= f + Overshoot(numFats, spc, f)
  {
    hide Clusters, Need;
    ClustersShrink(tot, rsvd, numFats, spc, 1, f - 1);
    var c, first := Clusters(tot, rsvd, numFats, spc, f), Clusters(tot, rsvd, numFats, spc, 1);
    var d := CeilDiv(numFats * (f - 1), spc);
    NeedGrows(c, d);
    NeedGrows(first, c + d - first);
  }

  /** The first need is sufficient itself. */
  lemma FirstNeedSuffices(tot: int, rsvd: int, numFats: nat, spc: nat, fatSec: nat)
    requires spc > 0 && fatSec == Max(1, Need(Clusters(tot, rsvd, numFats, spc, 1)))
    ensures Sufficient(tot, rsvd, numFats, spc, fatSec)
  {
    hide Clusters, Need;
    var clus := Clusters(tot, rsvd, numFats, spc, fatSec);
    ClustersShrink(tot, rsvd, numFats, spc, 1, fatSec - 1);
    NeedGrows(clus, Clusters(tot, rsvd, numFats, spc, 1) - clus);
  }

  lemma GeometryFits(tot: int, rsvd: int, numFats: nat, spc: nat, fatSec: nat)
    requires spc > 0 && Sufficient(tot, rsvd, numFats, spc, fatSec)
    ensures var clus := Clusters(tot, rsvd, numFats, spc, fatSec);
      (clus + 2) * 4 <= fatSec * SECTOR && rsvd + numFats * fatSec + clus * spc <= tot
  {
    DivBounds(tot - rsvd - numFats * fatSec, spc);
  }

  /** The sizing loop. Its guess changes at most once, the result covers every
      cluster entry and fits in the volume, it is the least sufficient size exactly
      when one sector less is not sufficient, and it overshoots any sufficient size
      by no more than the entries of the clusters that size would cost. */
  method FatSzFor(tot: int, rsvd: int, numFats: nat, spc: nat) returns (fatSec: nat, clus: int)
    requires spc > 0
    ensures fatSec == Max(1, Need(Clusters(tot, rsvd, numFats, spc, 1)))
    ensures clus == Clusters(tot, rsvd, numFats, spc, fatSec)
    ensures (clus + 2) * 4 <= fatSec * SECTOR
    ensures rsvd + numFats * fatSec + clus * spc <= tot
    ensures Sufficient(tot, rsvd, numFats, spc, fatSec)
    ensures Least(tot, rsvd, numFats, spc, fatSec)
            <==> fatSec == 1 || !Sufficient(tot, rsvd, numFats, spc, fatSec - 1)
    ensures forall f: nat :: 1 <= f && Sufficient(tot, rsvd, numFats, spc, f) ==>
      fatSec <= f + Overshoot(numFats, spc, f)
  {
    hide Need, Least, Overshoot, Sufficient;
    fatSec := 1;
    ghost var first := Need(Clusters(tot, rsvd, numFats, spc, 1));
    while true
      invariant fatSec == 1 || (fatSec == first && first > 1)
      decreases fatSec == 1
    {
      clus := (tot - rsvd - numFats * fatSec) / spc;
      var needSec := ((clus + 2) * 4 + SECTOR - 1) / SECTOR;
      NeedIs(clus, needSec);
      if needSec <= fatSec {
        break;
      }
      if fatSec == first {
        FirstNeedSuffices(tot, rsvd, numFats, spc, fatSec);
        SufficientIs(tot, rsvd, numFats, spc, fatSec);
      }
      fatSec := needSec;
    }
    FirstNeedSuffices(tot, rsvd, numFats, spc, fatSec);
    GeometryFits(tot, rsvd, numFats, spc, fatSec);
    LeastIff(tot, rsvd, numFats, spc, fatSec);
    forall f: nat | 1 <= f && Sufficient(tot, rsvd, numFats, spc, f)
      ensures fatSec <= f + Overshoot(numFats, spc, f)
    {
      NearlyLeast(tot, rsvd, numFats, spc, f);
    }
  }

  lemma NeedIs(clus: int, needSec: int)
    requires needSec == ((clus + 2) * 4 + SECTOR - 1) / SECTOR
    ensures needSec == Need(clus)
  {}

  lemma SufficientIs(tot: int, rsvd: int, numFats: nat, spc: nat, f: int)
    requires spc > 0
    ensures Sufficient(tot, rsvd, numFats, spc, f) <==> Need(Clusters(tot, rsvd, numFats, spc, f)) <= f
  {}

  /** The result is not always the least sufficient size: 257 MB gets 514 sectors
      although 513 would do. */
  lemma NotAlwaysLeast()
    ensures Max(1, Need(Clusters(257 * 2048, RSVD_SEC_CNT, NUM_FATS, SEC_PER_CLUS, 1))) == 514
    ensures Sufficient(257 * 2048, RSVD_SEC_CNT, NUM_FATS, SEC_PER_CLUS, 513)
    ensures !Least(257 * 2048, RSVD_SEC_CNT, NUM_FATS, SEC_PER_CLUS, 514)
  {}

  // ---- the boot sector ----

  /** A boot sector: the fields that the geometry decides, and the fixed ones. */
  predicate HasBpb(img: Bytes, tot: int, rsvd: int, numFats: int, fatSec: int, root: int) {
    && 512 <= |img| && FixedHead(img) && FixedTail(img)
    && U16(img, 11) == 512 && img[13] == 8
    && U16(img, 14) == rsvd && img[16] == numFats
    && U16(img, 19) == 0 && U16(img, 22) == 0
    && U32(img, 32) == tot && U32(img, 36) == fatSec && U32(img, 44) == root
    && img[446] == 0 && img[450] == 0 && img[510] == 0x55 && img[511] == 0xAA
  }

  /** BS_JmpBoot and BS_OEMName; BPB_RootEntCnt and BPB_Media; a disk of 63 sectors a
      track and 255 heads, BPB_HiddSec 0. */
  predicate FixedHead(b: Bytes)
    requires 512 <= |b|
  {
    && b[..11] == [0xEB, 0x58, 0x90, 0x4D, 0x53, 0x57, 0x49, 0x4E, 0x34, 0x2E, 0x31]
    && b[17..19] == [0, 0] && b[21] == 0xF8 && b[24..32] == [63, 0, 255, 0, 0, 0, 0, 0]
  }

  /** BPB_ExtFlags and BPB_FSVer; FSInfo in sector 1 and the backup in sector 6; drive
      0x80, the extended signature, the volume's id 0x20260801, its label and type. */
  predicate FixedTail(b: Bytes)
    requires 512 <= |b|
  {
    && b[40..44] == [0, 0, 0, 0] && b[48..52] == [1, 0, 6, 0] && b[52..64] == Zeros(12)
    && b[64..71] == [0x80, 0, 0x29, 0x01, 0x08, 0x26, 0x20]
    && b[71..82] == [0x47, 0x55, 0x46, 0x49, 0x4C, 0x45, 32, 32, 32, 32, 32]
    && b[82..90] == [0x46, 0x41, 0x54, 0x33, 0x32, 32, 32, 32] && b[90..510] == Zeros(420)
  }

  /** `b[at:at+|x|] = x`, the length unchanged. */
  function Poke(b: Bytes, at: nat, x: Bytes): (r: Bytes)
    requires at + |x| <= |b|
    ensures |r| == |b|
    ensures forall k :: 0 <= k < |b| ==> r[k] == if at <= k < at + |x| then x[k - at] else b[k]
  {
    b[..at] + x + b[at + |x|..]
  }

  /** The boot sector. The volume label literal has twelve bytes for an
      eleven-byte field, so the slice assignment makes the sector one byte longer. */
  method BpbBytes(tot: int, rsvd: int, numFats: int, fatSec: int, root: int) returns (b: Bytes)
    requires 0 <= tot < 0x1_0000_0000 && 0 <= rsvd < 0x1_0000 && 0 <= numFats < 256
    requires 0 <= fatSec < 0x1_0000_0000 && 0 <= root < 0x1_0000_0000
    ensures |b| == SECTOR + 1 && b[SECTOR] == 0
    ensures HasBpb(b, tot, rsvd, numFats, fatSec, root)
  {
    hide FixedHead, U32;
    b := BpbCommon(rsvd, numFats);
    ghost var common := b;
    b := BpbFat32(b, tot, fatSec, root);
    ghost var fat32 := b;
    b := BpbVolume(b);
    ghost var volume := b;
    b := BpbLabels(b);
    SameFields(volume, fat32, 52);
    SameFields(b, volume, 71);
    SameHead(common, b);
  }

  /** The label, one byte too long, the type, and the signature. */
  method BpbLabels(volume: Bytes) returns (b: Bytes)
    requires |volume| == SECTOR && forall k :: 71 <= k < SECTOR ==> volume[k] == 0
    ensures |b| == SECTOR + 1 && b[SECTOR] == 0 && b[510] == 0x55 && b[511] == 0xAA
    ensures forall k :: 0 <= k < 71 ==> b[k] == volume[k]
    ensures b[71..82] == [0x47, 0x55, 0x46, 0x49, 0x4C, 0x45, 32, 32, 32, 32, 32]
    ensures b[82..90] == [0x46, 0x41, 0x54, 0x33, 0x32, 32, 32, 32] && b[90..510] == Zeros(420)
  {
    b := Splice(volume, 71, 82, [0x47, 0x55, 0x46, 0x49, 0x4C, 0x45, 32, 32, 32, 32, 32, 32]);
    b := Poke(b, 82, [0x46, 0x41, 0x54, 0x33, 0x32, 32, 32, 32]);
    b := Poke(b, 510, [0x55, 0xAA]);
  }

  /** Sectors that agree up to `n` have the same fields there. */
  lemma SameFields(a: Bytes, b: Bytes, n: nat)
    requires n <= |a| && n <= |b| && forall k :: 0 <= k < n ==> a[k] == b[k]
    ensures forall i, j :: 0 <= i <= j <= n ==> a[i..j] == b[i..j]
    ensures forall i: nat :: i + 4 <= n ==> U32(a, i) == U32(b, i)
    ensures forall i: nat :: i + 2 <= n ==> U16(a, i) == U16(b, i)
  {}

  lemma SameHead(a: Bytes, b: Bytes)
    requires 512 <= |a| && 512 <= |b| && forall k :: 0 <= k < 32 ==> a[k] == b[k]
    ensures FixedHead(a) <==> FixedHead(b)
  {
    SameFields(a, b, 32);
  }

  /** The fields from BPB_Reserved to BS_VolID. */
  method BpbVolume(fat32: Bytes) returns (b: Bytes)
    requires |fat32| == SECTOR
    ensures |b| == SECTOR && forall k :: 0 <= k < 52 || 71 <= k < SECTOR ==> b[k] == fat32[k]
    ensures b[52..64] == Zeros(12) && b[64..71] == [0x80, 0, 0x29, 0x01, 0x08, 0x26, 0x20]
  {
    b := Poke(fat32, 52, Zeros(12));
    b := Poke(b, 64, [0x80, 0, 0x29]);
    b := Poke(b, 67, Le32(0x2026_0801));
  }

  /** The fields up to BPB_NumFATs. */
  method BpbHead(rsvd: int, numFats: int) returns (b: Bytes)
    requires 0 <= rsvd < 0x1_0000 && 0 <= numFats < 256
    ensures |b| == SECTOR
    ensures forall k :: 17 <= k < SECTOR ==> b[k] == 0
    ensures b[..11] == [0xEB, 0x58, 0x90, 0x4D, 0x53, 0x57, 0x49, 0x4E, 0x34, 0x2E, 0x31]
    ensures U16(b, 11) == SECTOR && b[13] == SEC_PER_CLUS && U16(b, 14) == rsvd && b[16] == numFats
  {
    b := Zeros(SECTOR);
    b := Poke(b, 0, [0xEB, 0x58, 0x90]);
    b := Poke(b, 3, [0x4D, 0x53, 0x57, 0x49, 0x4E, 0x34, 0x2E, 0x31]);
    b := Poke(b, 11, Le16(SECTOR));
    b := Poke(b, 13, [SEC_PER_CLUS]);
    b := Poke(b, 14, Le16(rsvd));
    b := Poke(b, 16, [numFats]);
  }

  /** The other fields before BPB_TotSec32. */
  method BpbCommon(rsvd: int, numFats: int) returns (b: Bytes)
    requires 0 <= rsvd < 0x1_0000 && 0 <= numFats < 256
    ensures |b| == SECTOR && FixedHead(b)
    ensures forall k :: 32 <= k < SECTOR ==> b[k] == 0
    ensures U16(b, 11) == SECTOR && b[13] == SEC_PER_CLUS
    ensures U16(b, 14) == rsvd && b[16] == numFats && U16(b, 19) == 0 && U16(b, 22) == 0
  {
    b := BpbHead(rsvd, numFats);
    b := Poke(b, 17, Le16(0));
    b := Poke(b, 19, Le16(0));
    b := BpbMedia(b);
  }

  /** Media, the 16-bit FAT size, and the disk's shape. */
  method BpbMedia(head: Bytes) returns (b: Bytes)
    requires |head| == SECTOR
    ensures |b| == SECTOR && U16(b, 22) == 0 && b[21] == 0xF8 && b[24..32] == [63, 0, 255, 0, 0, 0, 0, 0]
    ensures forall k :: 0 <= k < 21 || 32 <= k < SECTOR ==> b[k] == head[k]
  {
    b := Poke(head, 21, [0xF8]);
    b := Poke(b, 22, Le16(0));
    b := Poke(b, 24, Le16(63));
    b := Poke(b, 26, Le16(255));
    b := Poke(b, 28, Le32(0));
  }

  /** The FAT32 fields up to BPB_BkBootSec, over what is already there. */
  method BpbFat32(common: Bytes, tot: int, fatSec: int, root: int) returns (b: Bytes)
    requires |common| == SECTOR
    requires 0 <= tot < 0x1_0000_0000 && 0 <= fatSec < 0x1_0000_0000 && 0 <= root < 0x1_0000_0000
    ensures |b| == SECTOR
    ensures forall k :: 0 <= k < 32 || 52 <= k < SECTOR ==> b[k] == common[k]
    ensures U32(b, 32) == tot && U32(b, 36) == fatSec && U32(b, 44) == root
    ensures b[40..44] == [0, 0, 0, 0] && b[48..52] == [1, 0, 6, 0]
  {
    b := Poke(common, 32, Le32(tot));
    b := Poke(b, 36, Le32(fatSec));
    b := Poke(b, 40, Le16(0));
    b := Poke(b, 42, Le16(0));
    b := Poke(b, 44, Le32(root));
    U32OfLe32(tot, b, 32);
    U32OfLe32(fatSec, b, 36);
    U32OfLe32(root, b, 44);
    hide U32;
    ghost var sizes := b;
    b := BpbSectors(b);
    SameFields(sizes, b, 48);
  }

  /** BPB_FSInfo and BPB_BkBootSec. */
  method BpbSectors(sizes: Bytes) returns (b: Bytes)
    requires |sizes| == SECTOR
    ensures |b| == SECTOR && b[48..52] == [1, 0, 6, 0]
    ensures forall k :: 0 <= k < 48 || 52 <= k < SECTOR ==> b[k] == sizes[k]
  {
    b := Poke(sizes, 48, Le16(1));
    b := Poke(b, 50, Le16(6));
  }

  /** An FSInfo sector with its three signatures and both hints unknown. */
  predicate HasFsInfo(fi: Bytes) {
    && |fi| == SECTOR
    && U32(fi, 0) == 0x4161_5252 && U32(fi, 484) == 0x6141_7272 && U32(fi, 508) == 0xAA55_0000
    && U32(fi, 488) == 0xFFFF_FFFF && U32(fi, 492) == 0xFFFF_FFFF
  }

  method FsInfoBytes() returns (fi: Bytes)
    ensures HasFsInfo(fi)
  {
    hide Le32, U32;
    fi := Zeros(SECTOR);
    PokedU32(fi, 0, 0x4161_5252);
    fi := Poke(fi, 0, Le32(0x4161_5252));
    PokedU32(fi, 484, 0x6141_7272);
    fi := Poke(fi, 484, Le32(0x6141_7272));
    PokedU32(fi, 488, 0xFFFF_FFFF);
    fi := Poke(fi, 488, Le32(0xFFFF_FFFF));
    PokedU32(fi, 492, 0xFFFF_FFFF);
    fi := Poke(fi, 492, Le32(0xFFFF_FFFF));
    PokedU32(fi, 508, 0xAA55_0000);
    fi := Poke(fi, 508, Le32(0xAA55_0000));
  }

  /** A written number reads back, and numbers that do not overlap it stay. */
  lemma PokedU32(b: Bytes, at: nat, x: int)
    requires at + 4 <= |b| && 0 <= x < 0x1_0000_0000
    ensures var after := Poke(b, at, Le32(x));
      && |after| == |b| && U32(after, at) == x
      && forall k: nat :: k + 4 <= |b| && (k + 4 <= at || at + 4 <= k) ==> U32(after, k) == U32(b, k)
  {
    var after := Poke(b, at, Le32(x));
    assert after[at..at + 4] == Le32(x);
    U32OfLe32(x, after, at);
  }

  // ---- the reader's side ----

  datatype Geo = Geo(spc: nat, rsvd: nat, nfat: nat, tot: nat, fatSec: nat, root: nat,
                     bpbOff: nat, dataStart: nat)

  /** Start of MBR partition 0, or 0 when there is none. */
  function PartitionStart(img: Bytes): nat {
    if Slice(img, 510, 512) == [0x55, 0xAA] then
      assert |img| >= 512;
      var start := U32(img, 454);
      if img[446] in {0x00, 0x80} && img[450] != 0 && start > 0 then start else 0
    else 0
  }

  /** Bytes before the data region. */
  function DataBytes(rsvd: nat, nfat: nat, fatSec: nat): nat {
    (rsvd + nfat * fatSec) * SECTOR
  }

  function ReadBpb(img: Bytes, off: nat): Result<Geo> {
    if |img| < off + 48 then Raised
    else
      var tot16, fat16 := U16(img, off + 19), U16(img, off + 22);
      var tot := if tot16 == 0 then U32(img, off + 32) else tot16;
      var fatSec := if fat16 == 0 then U32(img, off + 36) else fat16;
      if U16(img, off + 11) != SECTOR then Raised
      else
        var spc: nat, rsvd: nat, nfat: nat := img[off + 13], U16(img, off + 14), img[off + 16];
        Ok(Geo(spc, rsvd, nfat, tot, fatSec, U32(img, off + 44), off,
               off + DataBytes(rsvd, nfat, fatSec)))
  }

  /** The reader finds no partition table in a created image, and recovers the
      geometry the writer chose. */
  lemma BpbReadBack(img: Bytes, tot: nat, fatSec: nat)
    requires HasBpb(img, tot, RSVD_SEC_CNT, NUM_FATS, fatSec, ROOT_CLUS)
    ensures PartitionStart(img) == 0
    ensures ReadBpb(img, 0) == Ok(Geo(SEC_PER_CLUS, RSVD_SEC_CNT, NUM_FATS, tot, fatSec, ROOT_CLUS, 0,
                                      DataBytes(RSVD_SEC_CNT, NUM_FATS, fatSec)))
  {}
}
