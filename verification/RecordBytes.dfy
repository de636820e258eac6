/** The bytes of directory records, field by field. */
module RecordBytes {
  import opened ByteStrings
  import opened Results
  import opened ShortNames
  import opened LongNames
  import opened Directory

  // ---- the checksum ----

  /** `r` is the byte `c` with its bits rotated right by one. */
  predicate Rotated(c: Byte, r: Byte) { r / 128 == c % 2 && r % 128 == c / 2 }

  /** The checksum of no bytes is 0; a further byte is added to the rotated checksum. */
  lemma ChecksumSteps(s: Bytes, b: Byte)
    ensures Checksum([]) == 0
    ensures exists r: Byte :: Rotated(Checksum(s), r) && Checksum(s + [b]) == (r + b as int) % 256
  {
    ChecksumSnoc(s, b, 0);
    var c := Checksum(s);
    var r: Byte := c % 2 * 128 + c / 2;
    assert Rotated(c, r);
  }

  lemma {:induction false} ChecksumSnoc(s: Bytes, b: Byte, c: Byte)
    ensures var d := ChecksumFrom(s, c); ChecksumFrom(s + [b], c) == (d % 2 * 128 + d / 2 + b) % 256
    decreases |s|
  {
    if s == [] {
      assert s + [b] == [b] && [b][1..] == [];
    } else {
      assert (s + [b])[1..] == s[1..] + [b];
      ChecksumSnoc(s[1..], b, (c % 2 * 128 + c / 2 + s[0]) % 256);
    }
  }

  lemma ChecksumAdvance(s: Bytes, i: nat, c: Byte, d: Byte)
    requires i < |s| && d == (c % 2 * 128 + c / 2 + s[i]) % 256
    ensures ChecksumFrom(s[i..], c) == ChecksumFrom(s[i + 1..], d)
  {
    assert s[i..][1..] == s[i + 1..];
  }

  lemma NoBytes(c: Byte)
    ensures ChecksumFrom([], c) == c
  {}

  /** "README  TXT" has checksum 0x73. */
  lemma ReadmeChecksum()
    ensures Checksum([82, 69, 65, 68, 77, 69, 32, 32, 84, 88, 84]) == 0x73
  {
    hide ChecksumFrom;
    var s: Bytes := [82, 69, 65, 68, 77, 69, 32, 32, 84, 88, 84];
    assert s[0..] == s;
    ChecksumAdvance(s, 0, 0, 82);
    ChecksumAdvance(s, 1, 82, 110);
    ChecksumAdvance(s, 2, 110, 120);
    ChecksumAdvance(s, 3, 120, 128);
    ChecksumAdvance(s, 4, 128, 141);
    ReadmeTail(s);
  }

  lemma ReadmeTail(s: Bytes)
    requires |s| == 11 && s[5..] == [69, 32, 32, 84, 88, 84]
    ensures ChecksumFrom(s[5..], 141) == 0x73
  {
    hide ChecksumFrom;
    var t := s[5..];
    assert t[0..] == t && t[6..] == [];
    ChecksumAdvance(t, 0, 141, 11);
    ChecksumAdvance(t, 1, 11, 165);
    ChecksumAdvance(t, 2, 165, 242);
    ChecksumAdvance(t, 3, 242, 205);
    ChecksumAdvance(t, 4, 205, 62);
    ChecksumAdvance(t, 5, 62, 115);
    NoBytes(115);
  }

  // ---- UTF-16 ----

  /** One character: itself as one unit, or a surrogate pair that stands for it. */
  lemma UtfUnits(c: CodePoint)
    requires !IsSurrogate(c)
    ensures c < 0x1_0000 ==> |Utf16(c)| == 2 && U16(Utf16(c), 0) == c
    ensures c >= 0x1_0000 ==>
      && |Utf16(c)| == 4
      && var hi, lo := U16(Utf16(c), 0), U16(Utf16(c), 2);
      0xD800 <= hi < 0xDC00 && 0xDC00 <= lo < 0xE000 && c == 0x1_0000 + 0x400 * (hi - 0xD800) + (lo - 0xDC00)
  {}

  lemma UtfEach(c: CodePoint, t: Text)
    requires NoSurrogate([c] + t) && NoSurrogate(t) && !IsSurrogate(c)
    ensures Utf16All([]) == [] && Utf16All([c] + t) == Utf16(c) + Utf16All(t)
  {
    assert ([c] + t)[1..] == t;
  }

  // ---- long-name records ----

  /** Where unit `k` of a long-name record lies. */
  function UnitAt(k: nat): (at: nat)
    requires k < 13
    ensures at + 2 <= 32
  {
    if k < 5 then 1 + 2 * k else if k < 11 then 14 + 2 * (k - 5) else 28 + 2 * (k - 11)
  }

  /** A record of `name`: its number, in the last of them with bit 6 set; attribute 0x0F,
      type 0, the checksum, first cluster 0; thirteen characters, then NUL, then 0xFFFF. */
  predicate IsRecord(e: Bytes, name: Text, cksum: Byte, q: nat, total: nat)
    requires 1 <= q <= total
  {
    && |e| == 32 && e[11] == 0x0F && e[12] == 0 && e[13] == cksum && e[26] == 0 && e[27] == 0
    && (q < total ==> e[0] == q)
    && (q == total ==> e[0] / 64 % 2 == 1 && e[0] % 64 == q % 64 && e[0] / 128 == q / 128)
    && forall k :: 0 <= k < 13 ==>
         var i := 13 * (q - 1) + k;
         U16(e, UnitAt(k)) == if i < |name| then name[i] else if i == |name| then 0 else 0xFFFF
  }

  /** No character beyond the BMP. */
  predicate Bmp(name: Text) { forall i :: 0 <= i < |name| ==> name[i] < 0x1_0000 }

  lemma RawAt(e: Bytes, k: nat)
    requires |e| == 32 && k < 13
    ensures |RawOf(e)| == 26 && U16(RawOf(e), 2 * k) == U16(e, UnitAt(k))
  {
    var raw := RawOf(e);
    assert raw == e[1..11] + e[14..26] + e[28..32];
  }

  /** A record carries the first 26 bytes of its characters in UTF-16. */
  lemma RecordCarries(name: Text, cksum: Byte, q: nat)
    requires Encodable(name) && 1 <= q <= Records(name)
    ensures RawOf(LfnRecord(name, cksum, q)) == Utf16All(Filled(Chunk(name, q)))[..26]
  {
    hide Utf16All, Filled, Chunk;
    var raw := Utf16All(Filled(Chunk(name, q)));
    var e := Record(Ord(q, Records(name)), cksum, raw);
    assert e[1..11] == raw[..10] && e[14..26] == raw[10..22] && e[28..32] == raw[22..26];
    assert raw[..26] == raw[..10] + raw[10..22] + raw[22..26];
  }

  lemma RecordFixed(name: Text, cksum: Byte, q: nat)
    requires Encodable(name) && 1 <= q <= Records(name)
    ensures var e, total := LfnRecord(name, cksum, q), Records(name);
      && e[12] == 0 && e[26] == 0 && e[27] == 0
      && (q < total ==> e[0] == q)
      && (q == total ==> e[0] / 64 % 2 == 1 && e[0] % 64 == q % 64 && e[0] / 128 == q / 128)
  {
    hide Utf16All, Filled, Chunk;
  }

  lemma FilledAt(name: Text, q: nat, k: nat)
    requires Encodable(name) && 1 <= q <= Records(name) && k < 13
    ensures var i := 13 * (q - 1) + k;
      Filled(Chunk(name, q))[k] == if i < |name| then name[i] else if i == |name| then 0 else 0xFFFF
  {}

  lemma RecordIs(name: Text, cksum: Byte, q: nat)
    requires Encodable(name) && Bmp(name) && 1 <= q <= Records(name)
    ensures IsRecord(LfnRecord(name, cksum, q), name, cksum, q, Records(name))
  {
    hide Utf16All, Filled, Chunk, RawOf, LfnRecord, U16, UnitAt;
    var e, us := LfnRecord(name, cksum, q), Filled(Chunk(name, q));
    RecordFixed(name, cksum, q);
    RecordCarries(name, cksum, q);
    forall k | 0 <= k < 13
      ensures var i := 13 * (q - 1) + k;
        us[k] == if i < |name| then name[i] else if i == |name| then 0 else 0xFFFF
    {
      FilledAt(name, q, k);
    }
    RawUnits(us);
    assert Utf16All(us)[..26] == Utf16All(us);
    forall k | 0 <= k < 13
      ensures U16(e, UnitAt(k)) == us[k]
    {
      RawAt(e, k);
    }
  }

  /** The records of a name: as many as it has chunks of thirteen, the last chunk first,
      each with the checksum of the field. */
  lemma RecordsAre(name: Text, short: Bytes)
    requires Encodable(name) && Bmp(name)
    ensures var rs := LfnRecords(name, short);
      && 13 * |rs| >= |name| > 13 * (|rs| - 1)
      && forall i :: 0 <= i < |rs| ==> IsRecord(rs[i], name, Checksum(short), |rs| - i, |rs|)
  {
    hide LfnRecord, IsRecord, Checksum;
    forall q | 1 <= q <= Records(name)
      ensures IsRecord(LfnRecord(name, Checksum(short), q), name, Checksum(short), q, Records(name))
    {
      RecordIs(name, Checksum(short), q);
    }
  }

  // ---- short entries ----

  /** A short entry: field, attribute, the fixed date and time, first cluster, size. */
  predicate IsEntry(e: Bytes, short: Bytes, attr: Byte, first: nat, size: nat) {
    && |e| == 32 && e[..11] == short && e[11] == attr && e[12] == 0 && e[13] == 0
    && OnDate(U16(e, 16)) && OnDate(U16(e, 18)) && OnDate(U16(e, 24)) && AtNoon(U16(e, 14)) && AtNoon(U16(e, 22))
    && U16(e, 26) + 0x1_0000 * U16(e, 20) == first && U32(e, 28) == size
  }

  /** 1 August 2026 */
  predicate OnDate(d: int) { d / 512 + 1980 == 2026 && d / 32 % 16 == 8 && d % 32 == 1 }

  /** 12:00:00 */
  predicate AtNoon(t: int) { t / 2048 == 12 && t % 2048 == 0 }

  lemma EntryIs(short: Bytes, attr: Byte, first: nat, size: nat)
    requires |short| == 11 && size < 0x1_0000_0000 && first < 0x1_0000_0000
    ensures IsEntry(DirEntry(short, attr, first, size), short, attr, first, size)
  {
    DirEntryFields(short, attr, first, size);
    EntryFixed(short, attr, first, size);
  }

  lemma EntryFixed(short: Bytes, attr: Byte, first: nat, size: nat)
    requires |short| == 11 && size < 0x1_0000_0000
    ensures var e := DirEntry(short, attr, first, size);
      && e[12] == 0 && e[13] == 0
      && OnDate(U16(e, 16)) && OnDate(U16(e, 18)) && OnDate(U16(e, 24)) && AtNoon(U16(e, 14)) && AtNoon(U16(e, 22))
  {
    hide Le32;
    var e := DirEntry(short, attr, first, size);
    assert e[14..26] == [0, 0x60, 0x01, 0x5D, 0x01, 0x5D, e[20], e[21], 0, 0x60, 0x01, 0x5D];
  }

  /** A child's records: its long-name records where its field does not read as its name,
      and then its short entry, attribute 0x10 for a directory and 0x20 for a file; an
      empty file has no first cluster. */
  lemma ChildRecordsAre(c: Stub, short: Bytes)
    requires |short| == 11 && c.Writable() && c.first < 0x1_0000_0000
    ensures var rs := ChildRecords(c, short);
      && rs != []
      && rs[..|rs| - 1] == (if ShortToName(short) == c.name then [] else LfnRecords(c.name, short))
      && IsEntry(rs[|rs| - 1], short, if c.isDir then 0x10 else 0x20,
                 if !c.isDir && c.size == 0 then 0 else c.first, c.size)
  {
    hide IsEntry, DirEntry, LfnRecords, ShortToName;
    EntryIs(short, c.Attr(), c.First(), c.size);
  }

  /** The dot entries: the directory itself, and its parent, 0 for the root. */
  lemma DotRecordsAre(first: nat, parent: nat)
    requires first < 0x1_0000_0000 && parent < 0x1_0000_0000
    ensures var rs := DotRecords(first, parent);
      && (parent == 0 ==> rs == [])
      && (parent != 0 ==>
            && |rs| == 2
            && IsEntry(rs[0], [46, 32, 32, 32, 32, 32, 32, 32, 32, 32, 32], 0x10, first, 0)
            && IsEntry(rs[1], [46, 46, 32, 32, 32, 32, 32, 32, 32, 32, 32], 0x10, if parent == 2 then 0 else parent, 0))
  {
    hide IsEntry, DirEntry;
    EntryIs(DOT_SHORT, ATTR_DIRECTORY, first, 0);
    EntryIs(DOTDOT_SHORT, ATTR_DIRECTORY, if parent != 2 then parent else 0, 0);
  }

  predicate KnownAttr(e: Bytes) { |e| == 32 && e[11] in {0x0F, 0x10, 0x20} }

  /** Every record of a directory is a long-name record, a directory's or a file's. */
  lemma {:induction false} AttributesOf(cs: seq<Stub>, shorts: seq<Bytes>)
    requires Paired(cs, shorts)
    ensures forall r :: r in AllRecords(cs, shorts) ==> KnownAttr(r)
    decreases |cs|
  {
    hide ChildRecords;
    if cs != [] {
      AttributesOfChild(cs[0], shorts[0]);
      AttributesOf(cs[1..], shorts[1..]);
    }
  }

  lemma AttributesOfChild(c: Stub, short: Bytes)
    requires |short| == 11 && c.Writable()
    ensures forall r :: r in ChildRecords(c, short) ==> KnownAttr(r)
  {
    hide DirEntry;
  }

  lemma DirectoryAttributes(cs: seq<Stub>, first: nat, parent: nat)
    requires DirWritable(cs)
    ensures forall r :: r in DirRecords(cs, first, parent) ==> KnownAttr(r)
  {
    hide DirEntry, AllRecords, AssignShorts;
    AttributesOf(cs, AssignShorts(NamesOf(cs), {}).value);
  }

  // ---- reading ----

  /** What a short entry is taken for, whatever its bytes. */
  lemma ParsedAs(e: Bytes, pending: seq<Bytes>)
    requires |e| == 32 && Keyed(pending)
    ensures var r, long := ParseShort(e, pending), LfnDecode(pending, e[..11]);
      && (r.Ok? <==> long.Ok?)
      && (r.Ok? ==>
            && r.value.name == (if long.value == [] then ShortToName(e[..11]) else long.value)
            && r.value.short == e[..11] && (r.value.isDir <==> e[11] / 16 % 2 == 1)
            && r.value.first == e[26] + 0x100 * e[27] as int + 0x1_0000 * e[20] as int + 0x100_0000 * e[21] as int
            && r.value.size == U32(e, 28))
  {
    hide LfnDecode, ShortToName;
  }

  /** Data that ends inside a record raises, unless the record is an end mark or deleted,
      or a long-name record whose attribute is still there. */
  lemma CutShort(data: Bytes, off: nat, bpc: nat, pending: seq<Bytes>, entries: seq<Entry>)
    requires Keyed(pending) && off < bpc && |data| < off + 32
    requires off < |data| ==> data[off] != 0 && data[off] != 0xE5
    requires off + 12 <= |data| ==> data[off + 11] != 0x0F
    ensures ScanCluster(data, off, bpc, pending, entries) == Raised
  {
    hide LfnDecode;
    var e := Slice(data, off, off + 32);
    assert e == if off < |data| then data[off..] else [];
    if |e| >= 12 { DecodeEnds(pending, e[..11]); }
  }

  /** A long-name record is kept for the short entry to come, whole or cut short behind
      its attribute. */
  lemma LongKept(data: Bytes, off: nat, bpc: nat, pending: seq<Bytes>, entries: seq<Entry>)
    requires Keyed(pending) && off < bpc && off + 12 <= |data|
    requires data[off] != 0 && data[off] != 0xE5 && data[off + 11] == 0x0F
    ensures var e := data[off..Min(off + 32, |data|)];
      ScanCluster(data, off, bpc, pending, entries) == ScanCluster(data, off + 32, bpc, pending + [e], entries)
  {
    hide ParseShort;
    assert Slice(data, off, off + 32) == data[off..Min(off + 32, |data|)];
  }

  lemma {:induction false} RawEnds(raw: Bytes, i: nat, chars: Text)
    requires i <= 26
    ensures !DecodeRaw(raw, i, chars).OutOfFuel?
    decreases 26 - i
  {
    if i < 25 && |raw| >= i + 2 {
      var u := U16(raw, i);
      RawEnds(raw, i + 2, if u != 0 then chars + [u] else chars);
    }
  }

  lemma {:induction false} SortedEnds(es: seq<Bytes>, chars: Text)
    ensures !DecodeSorted(es, chars).OutOfFuel?
    decreases |es|
  {
    hide DecodeRaw, RawOf;
    if es != [] {
      RawEnds(RawOf(es[0]), 0, chars);
      var one := DecodeRaw(RawOf(es[0]), 0, chars);
      if one.Ok? { SortedEnds(es[1..], one.value.1); }
    }
  }

  lemma DecodeEnds(pending: seq<Bytes>, short: Bytes)
    requires Keyed(pending)
    ensures !LfnDecode(pending, short).OutOfFuel?
  {
    hide DecodeSorted;
    SortedEnds(SortByOrd(pending), []);
  }

  /** The text of the units before the first 0xFFFF, without NULs. */
  function TextOf(us: Text): Text {
    if us == [] || us[0] == 0xFFFF then [] else (if us[0] == 0 then [] else [us[0]]) + TextOf(us[1..])
  }

  /** One record's thirteen units add that text, and stop the decoder if one is 0xFFFF. */
  lemma UnitsDecoded(e: Bytes, us: Text, chars: Text)
    requires |e| == 32 && |us| == 13 && forall k :: 0 <= k < 13 ==> us[k] == U16(e, UnitAt(k))
    ensures DecodeRaw(RawOf(e), 0, chars) == Ok((0xFFFF in us, chars + TextOf(us)))
  {
    hide RawOf, UnitAt, U16, DecodeRaw, DecodeUnits;
    forall k | 0 <= k < 13
      ensures |RawOf(e)| == 26 && U16(RawOf(e), 2 * k) == us[k]
    {
      RawAt(e, k);
    }
    RawAt(e, 0);
    DecodeRawUnits(RawOf(e), us, 0, chars);
    assert us[0..] == us;
    UnitsAreText(us, chars);
  }

  lemma {:induction false} UnitsAreText(us: Text, chars: Text)
    ensures DecodeUnits(us, chars) == (0xFFFF in us, chars + TextOf(us))
    decreases |us|
  {
    if us == [] || us[0] == 0xFFFF {
      assert chars + [] == chars;
    } else {
      assert us == [us[0]] + us[1..];
      var next := if us[0] != 0 then chars + [us[0]] else chars;
      UnitsAreText(us[1..], next);
      assert next + TextOf(us[1..]) == chars + TextOf(us);
    }
  }

  /** Record after record: the first one with a 0xFFFF ends the text, whatever follows. */
  lemma RecordsDecoded(e: Bytes, rest: seq<Bytes>, us: Text, chars: Text)
    requires |e| == 32 && |us| == 13 && forall k :: 0 <= k < 13 ==> us[k] == U16(e, UnitAt(k))
    ensures DecodeSorted([], chars) == Ok((false, chars))
    ensures DecodeSorted([e] + rest, chars)
            == if 0xFFFF in us then Ok((true, chars + TextOf(us))) else DecodeSorted(rest, chars + TextOf(us))
  {
    hide DecodeRaw, RawOf, U16, UnitAt, TextOf;
    UnitsDecoded(e, us, chars);
    assert ([e] + rest)[1..] == rest;
  }

  /** Records are taken in the order of the low six bits of their numbers. */
  lemma TakenInOrder(pending: seq<Bytes>)
    requires Keyed(pending)
    ensures var es := SortByOrd(pending);
      && multiset(es) == multiset(pending)
      && forall i, j :: 0 <= i < j < |es| ==> es[i][0] % 64 <= es[j][0] % 64
  {
    SortSorts(pending);
  }

  /** Where no unit is 0xFFFF, the text is believed exactly if the checksum in the record
      with the least number is that of the field. */
  lemma BelievedIff(pending: seq<Bytes>, short: Bytes, least: Bytes)
    requires Keyed(pending) && least in pending && |least| == 32
    requires forall e :: e in pending && e != least ==> e[0] % 64 > least[0] % 64
    requires multiset(pending)[least] == 1
    requires var all := DecodeSorted(SortByOrd(pending), []); all.Ok? && !all.value.0 && all.value.1 != []
    ensures LfnDecode(pending, short)
            == Ok(if Checksum(short) == least[13] then DecodeSorted(SortByOrd(pending), []).value.1 else [])
  {
    hide DecodeSorted, Checksum, SortByOrd;
    TakenInOrder(pending);
    var es := SortByOrd(pending);
    assert least in multiset(es) && es[0] in multiset(pending);
    var i :| 0 <= i < |es| && es[i] == least;
    assert es[0] == least;
  }
}
