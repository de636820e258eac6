/** Long-name directory records (Microsoft FAT32 File System Specification,
    section 7.2): thirteen UTF-16 units a record, stored last chunk first. */
module LongNames {
  import opened ByteStrings
  import opened Results
  import opened ShortNames

  const ATTR_LFN: Byte := 0x0F
  const PAD_UNIT: CodePoint := 0xFFFF

  // ---- the short-name checksum ----

  function ChecksumFrom(s: Bytes, c: Byte): Byte {
    if s == [] then c else ChecksumFrom(s[1..], (c % 2 * 128 + c / 2 + s[0]) % 256)
  }

  function Checksum(s: Bytes): Byte { ChecksumFrom(s, 0) }

  method LfnChecksum(s: Bytes) returns (c: Byte)
    ensures c == Checksum(s)
  {
    c := 0;
    for i := 0 to |s|
      invariant ChecksumFrom(s[i..], c) == Checksum(s)
    {
      c := (c % 2 * 128 + c / 2 + s[i]) % 256;
      assert s[i..][1..] == s[i + 1..];
    }
  }

  lemma {:induction false} ChecksumInjective(s: Bytes, c: Byte, d: Byte)
    requires c != d
    ensures ChecksumFrom(s, c) != ChecksumFrom(s, d)
    decreases |s|
  {
    if s != [] {
      ChecksumInjective(s[1..], (c % 2 * 128 + c / 2 + s[0]) % 256, (d % 2 * 128 + d / 2 + s[0]) % 256);
    }
  }

  /** Changing any one byte of the field changes the checksum. */
  lemma {:induction false} ChecksumDetects(s: Bytes, i: nat, x: Byte, c: Byte)
    requires i < |s| && s[i] != x
    ensures ChecksumFrom(s[i := x], c) != ChecksumFrom(s, c)
    decreases |s|
  {
    var t := s[i := x];
    if i == 0 {
      assert t[1..] == s[1..];
      ChecksumInjective(s[1..], (c % 2 * 128 + c / 2 + x) % 256, (c % 2 * 128 + c / 2 + s[0]) % 256);
    } else {
      assert t[1..] == s[1..][i - 1 := x];
      ChecksumDetects(s[1..], i - 1, x, (c % 2 * 128 + c / 2 + s[0]) % 256);
    }
  }

  // ---- lfn_entries ----

  predicate IsSurrogate(c: CodePoint) { 0xD800 <= c < 0xE000 }

  /** `chr(c).encode("utf-16-le")`; surrogates raise. */
  function Utf16(c: CodePoint): (r: Bytes)
    requires !IsSurrogate(c)
    ensures |r| >= 2 && (c < 0x1_0000 ==> r == Le16(c))
  {
    if c < 0x1_0000 then Le16(c)
    else Le16(0xD800 + (c - 0x1_0000) / 0x400) + Le16(0xDC00 + (c - 0x1_0000) % 0x400)
  }

  predicate NoSurrogate(t: Text) { forall i :: 0 <= i < |t| ==> !IsSurrogate(t[i]) }

  function Utf16All(t: Text): (r: Bytes)
    requires NoSurrogate(t)
    ensures |r| >= 2 * |t|
  {
    if t == [] then [] else Utf16(t[0]) + Utf16All(t[1..])
  }

  function Records(name: Text): nat { (|name| + 12) / 13 }

  /** The names the encoder takes: no surrogate, and a record number that fits a byte. */
  predicate Encodable(name: Text) { NoSurrogate(name) && Records(name) <= 255 }

  function Chunk(name: Text, q: nat): (r: Text)
    requires 1 <= q <= Records(name)
    ensures 1 <= |r| <= 13
    ensures q < Records(name) ==> |r| == 13
    ensures NoSurrogate(name) ==> NoSurrogate(r)
  {
    name[13 * (q - 1)..Min(13 * q, |name|)]
  }

  /** A chunk filled up to thirteen characters: NUL, then 0xFFFF. */
  function Filled(chunk: Text): (r: Text)
    requires |chunk| <= 13
    ensures |r| == 13
    ensures NoSurrogate(chunk) ==> NoSurrogate(r)
  {
    if |chunk| < 13 then chunk + [0] + seq(12 - |chunk|, _ => PAD_UNIT) else chunk
  }

  function Ord(q: nat, total: nat): (r: Byte)
    requires 1 <= q <= total <= 255
    ensures r != 0 && (total <= 63 ==> r % 64 == q && r < 0x80)
  {
    if q == total && q % 128 < 64 then 64 + q else q
  }

  function Record(ord: Byte, cksum: Byte, raw: Bytes): (r: Bytes)
    requires |raw| >= 26
    ensures |r| == 32 && r[0] == ord && r[11] == ATTR_LFN && r[13] == cksum
  {
    [ord] + raw[0..10] + [ATTR_LFN, 0, cksum] + raw[10..22] + [0, 0] + raw[22..26]
  }

  predicate IsLongRecord(e: Bytes, ord: Byte, cksum: Byte) {
    |e| == 32 && e[0] == ord && e[11] == ATTR_LFN && e[13] == cksum
  }

  function LfnRecord(name: Text, cksum: Byte, q: nat): (r: Bytes)
    requires Encodable(name) && 1 <= q <= Records(name)
    ensures IsLongRecord(r, Ord(q, Records(name)), cksum)
  {
    Record(Ord(q, Records(name)), cksum, Utf16All(Filled(Chunk(name, q))))
  }

  /** Records `q`, `q - 1`, ..., 1. */
  function Descending(name: Text, cksum: Byte, q: nat): (r: seq<Bytes>)
    requires Encodable(name) && q <= Records(name)
    ensures |r| == q
    ensures forall i :: 0 <= i < q ==> IsLongRecord(r[i], Ord(q - i, Records(name)), cksum)
  {
    seq(q, i requires 0 <= i < q => LfnRecord(name, cksum, q - i))
  }

  function LfnRecords(name: Text, short: Bytes): seq<Bytes>
    requires Encodable(name)
  {
    Descending(name, Checksum(short), Records(name))
  }

  /** `lfn_entries`; None where encoding or the record number raises. */
  method LfnEntries(name: Text, short: Bytes) returns (r: Option<seq<Bytes>>)
    ensures r.Some? <==> Encodable(name)
    ensures r.Some? <==> |name| <= 3315 && forall i :: 0 <= i < |name| ==> !(0xD800 <= name[i] <= 0xDFFF)
    ensures r.Some? ==> r.value == LfnRecords(name, short)
  {
    EncodableIs(name);
    var cksum := LfnChecksum(short);
    var total := Records(name);
    var out := [];
    var q := total;
    while q > 0
      invariant 0 <= q <= total
      invariant q < total ==> total <= 255
      invariant forall i :: 13 * q <= i < |name| ==> !IsSurrogate(name[i])
      invariant Encodable(name) ==> out == Descending(name, cksum, total)[..total - q]
    {
      var chunk := Chunk(name, q);
      if total > 255 || !NoSurrogate(chunk) {
        return None;
      }
      var chars := chunk;
      if |chunk| < 13 {
        chars := chars + [0];
        chars := chars + seq(12 - |chunk|, _ => PAD_UNIT);
      }
      assert chars == Filled(chunk);
      forall i | 13 * (q - 1) <= i < 13 * q && i < |name|
        ensures !IsSurrogate(name[i])
      {
        assert name[i] == chunk[i - 13 * (q - 1)];
      }
      if Encodable(name) {
        assert Descending(name, cksum, total)[total - q] == LfnRecord(name, cksum, q);
      }
      out := out + [Record(Ord(q, total), cksum, Utf16All(chars))];
      q := q - 1;
    }
    return Some(out);
  }

  // ---- lfn_decode ----

  function Key(e: Bytes): int
    requires e != []
  {
    e[0] % 64
  }

  predicate Keyed(es: seq<Bytes>) { forall i :: 0 <= i < |es| ==> es[i] != [] }

  /** Places `e` before the first element whose key is not smaller. */
  function Insert(e: Bytes, es: seq<Bytes>): (r: seq<Bytes>)
    requires e != [] && Keyed(es)
    ensures |r| == |es| + 1 && Keyed(r) && multiset(r) == multiset(es) + multiset{e}
  {
    if es == [] || Key(e) <= Key(es[0]) then [e] + es
    else
      assert es == [es[0]] + es[1..];
      [es[0]] + Insert(e, es[1..])
  }

  /** `sorted(pending, key=ord & 0x3F)`: stable. */
  function SortByOrd(es: seq<Bytes>): (r: seq<Bytes>)
    requires Keyed(es)
    ensures |r| == |es| && Keyed(r) && multiset(r) == multiset(es)
  {
    if es == [] then []
    else
      assert es == [es[0]] + es[1..];
      Insert(es[0], SortByOrd(es[1..]))
  }

  /** What the unit loop of one record does: stop at 0xFFFF, skip NUL, keep the rest. */
  function DecodeRaw(raw: Bytes, i: nat, chars: Text): Result<(bool, Text)>
    requires i <= 26
    decreases 26 - i
  {
    if i >= 25 then Ok((false, chars))
    else if |raw| < i + 2 then Raised
    else
      var u := U16(raw, i);
      if u == 0xFFFF then Ok((true, chars))
      else DecodeRaw(raw, i + 2, if u != 0 then chars + [u] else chars)
  }

  function RawOf(e: Bytes): Bytes { Slice(e, 1, 11) + Slice(e, 14, 26) + Slice(e, 28, 32) }

  function DecodeSorted(es: seq<Bytes>, chars: Text): Result<(bool, Text)>
    decreases es
  {
    if es == [] then Ok((false, chars))
    else
      var (stopped, chars') :- DecodeRaw(RawOf(es[0]), 0, chars);
      if stopped then Ok((true, chars')) else DecodeSorted(es[1..], chars')
  }

  /** The long name behind the records collected before a short entry; the empty
      text when there is none to trust. */
  function LfnDecode(pending: seq<Bytes>, short: Bytes): Result<Text>
    requires Keyed(pending)
  {
    var bySeq := SortByOrd(pending);
    var (stopped, name) :- DecodeSorted(bySeq, []);
    if stopped then Ok(name)
    else if name == [] || bySeq == [] then Ok([])
    else if |bySeq[0]| < 14 then Raised
    else Ok(if Checksum(short) == bySeq[0][13] then name else [])
  }

  /** The unit loop over one record's name fields. */
  method DecodeUnitLoop(raw: Bytes, before: Text) returns (r: Result<(bool, Text)>)
    ensures r == DecodeRaw(raw, 0, before)
  {
    var chars: Text := before;
    var i := 0;
    while i < 26
      invariant 0 <= i <= 26 && i % 2 == 0
      invariant DecodeRaw(raw, 0, before) == DecodeRaw(raw, i, chars)
    {
      if |raw| < i + 2 {
        return Raised;
      }
      var u := raw[i] as int + 256 * raw[i + 1] as int;
      if u == 0xFFFF {
        return Ok((true, chars));
      }
      if u != 0 {
        chars := chars + [u];
      }
      i := i + 2;
    }
    return Ok((false, chars));
  }

  /** `lfn_decode` */
  method DecodeLongName(pending: seq<Bytes>, short: Bytes) returns (r: Result<Text>)
    requires Keyed(pending)
    ensures r == LfnDecode(pending, short)
  {
    var bySeq := SortByOrd(pending);
    var name: Text := [];
    for k := 0 to |bySeq|
      invariant DecodeSorted(bySeq, []) == DecodeSorted(bySeq[k..], name)
    {
      assert bySeq[k..][1..] == bySeq[k + 1..];
      var one := DecodeUnitLoop(RawOf(bySeq[k]), name);
      if one.IsFailure() {
        return one.PropagateFailure();
      }
      name := one.value.1;
      if one.value.0 {
        return Ok(name);
      }
    }
    if name != [] && bySeq != [] {
      if |bySeq[0]| < 14 {
        return Raised;
      }
      var c := LfnChecksum(short);
      if c == bySeq[0][13] {
        return Ok(name);
      }
    }
    return Ok([]);
  }

  // ---- the sort is a stable sort ----

  predicate SortedByKey(es: seq<Bytes>)
    requires Keyed(es)
  {
    forall i, j :: 0 <= i < j < |es| ==> es[i][0] % 64 <= es[j][0] % 64
  }

  lemma {:induction false} InsertSorts(e: Bytes, es: seq<Bytes>)
    requires e != [] && Keyed(es) && SortedByKey(es)
    ensures SortedByKey(Insert(e, es))
    decreases |es|
  {
    if es != [] && Key(e) > Key(es[0]) {
      InsertSorts(e, es[1..]);
      var r := Insert(e, es[1..]);
      forall i | 0 <= i < |r| ensures Key(es[0]) <= Key(r[i]) {
        assert r[i] in multiset(r);
        assert r[i] == e || r[i] in es[1..];
      }
    }
  }

  lemma {:induction false} SortSorts(es: seq<Bytes>)
    requires Keyed(es)
    ensures SortedByKey(SortByOrd(es))
    decreases |es|
  {
    if es != [] {
      SortSorts(es[1..]);
      InsertSorts(es[0], SortByOrd(es[1..]));
    }
  }

  // ---- round trip ----

  /** Names that survive the long-name codec. */
  predicate LegalName(name: Text) {
    && 0 < |name| <= 819
    && forall i :: 0 <= i < |name| ==> 0 < name[i] < 0xFFFF && !IsSurrogate(name[i])
  }

  lemma {:induction false} InsertLast(e: Bytes, es: seq<Bytes>)
    requires e != [] && Keyed(es) && forall i :: 0 <= i < |es| ==> Key(es[i]) < Key(e)
    ensures Insert(e, es) == es + [e]
    decreases |es|
  {
    if es != [] { InsertLast(e, es[1..]); }
  }

  /** Keys q, q - 1, ..., 1 sort to the reverse order. */
  lemma {:induction false} SortReverses(es: seq<Bytes>)
    requires Keyed(es) && forall i :: 0 <= i < |es| ==> Key(es[i]) == |es| - i
    ensures forall i :: 0 <= i < |es| ==> SortByOrd(es)[i] == es[|es| - 1 - i]
    decreases |es|
  {
    hide Insert;
    if es != [] {
      var rest := SortByOrd(es[1..]);
      assert SortByOrd(es) == Insert(es[0], rest);
      hide SortByOrd;
      SortReverses(es[1..]);
      forall i | 0 <= i < |rest| ensures Key(rest[i]) < Key(es[0]) {
        assert rest[i] == es[1..][|rest| - 1 - i];
      }
      InsertLast(es[0], rest);
    }
  }

  function DecodeUnits(us: Text, chars: Text): (bool, Text)
    decreases us
  {
    if us == [] then (false, chars)
    else if us[0] == 0xFFFF then (true, chars)
    else DecodeUnits(us[1..], if us[0] != 0 then chars + [us[0]] else chars)
  }

  lemma {:induction false} UnitsOfRaw(t: Text, i: nat)
    requires NoSurrogate(t) && i < |t| && forall k :: 0 <= k < |t| ==> t[k] < 0x1_0000
    ensures |Utf16All(t)| == 2 * |t| && U16(Utf16All(t), 2 * i) == t[i]
    decreases |t|
  {
    if |t| > 1 {
      UnitsOfRaw(t[1..], if i > 0 then i - 1 else 0);
    } else {
      assert Utf16All(t) == Utf16(t[0]);
    }
  }

  lemma {:induction false} DecodeRawUnits(raw: Bytes, us: Text, i: nat, chars: Text)
    requires |us| == 13 && |raw| == 26 && i <= 13
    requires forall k :: 0 <= k < 13 ==> U16(raw, 2 * k) == us[k]
    ensures DecodeRaw(raw, 2 * i, chars) == Ok(DecodeUnits(us[i..], chars))
    decreases 13 - i
  {
    if i < 13 {
      assert us[i..][1..] == us[i + 1..];
      DecodeRawUnits(raw, us, i + 1, if us[i] != 0 then chars + [us[i]] else chars);
    }
  }

  lemma {:induction false} DecodePlain(us: Text, rest: Text, chars: Text)
    requires forall i :: 0 <= i < |us| ==> us[i] != 0 && us[i] != 0xFFFF
    ensures DecodeUnits(us + rest, chars) == DecodeUnits(rest, chars + us)
    decreases |us|
  {
    if us == [] {
      assert us + rest == rest && chars + us == chars;
    } else {
      assert (us + rest)[1..] == us[1..] + rest;
      assert chars + [us[0]] + us[1..] == chars + us;
      DecodePlain(us[1..], rest, chars + [us[0]]);
    }
  }

  lemma RawUnits(us: Text)
    requires |us| == 13 && NoSurrogate(us) && forall k :: 0 <= k < 13 ==> us[k] < 0x1_0000
    ensures |Utf16All(us)| == 26 && forall k :: 0 <= k < 13 ==> U16(Utf16All(us), 2 * k) == us[k]
  {
    forall k | 0 <= k < 13
      ensures |Utf16All(us)| == 26 && U16(Utf16All(us), 2 * k) == us[k]
    {
      UnitsOfRaw(us, k);
    }
  }

  lemma RawOfRecord(ord: Byte, cksum: Byte, raw: Bytes)
    requires |raw| == 26
    ensures RawOf(Record(ord, cksum, raw)) == raw
  {
    var e := Record(ord, cksum, raw);
    assert e[1..11] == raw[..10];
    assert e[14..26] == raw[10..22];
    assert e[28..32] == raw[22..26];
    assert raw == raw[..10] + raw[10..22] + raw[22..26];
  }

  /** The unit loop keeps a filled-up chunk, and meets 0xFFFF when there is padding. */
  lemma DecodeFilled(chunk: Text, chars: Text)
    requires |chunk| <= 13 && forall i :: 0 <= i < |chunk| ==> 0 < chunk[i] < 0xFFFF
    ensures DecodeUnits(Filled(chunk), chars) == (|chunk| < 12, chars + chunk)
  {
    var rest := Filled(chunk)[|chunk|..];
    assert Filled(chunk) == chunk + rest;
    DecodePlain(chunk, rest, chars);
    if |chunk| < 12 {
      assert rest[0] == 0 && rest[1..][0] == PAD_UNIT;
    } else if |chunk| == 12 {
      assert rest == [0] && rest[1..] == [];
    }
  }

  /** One record gives back its chunk, and stops the loop when 0xFFFF padding follows. */
  lemma DecodeRecord(name: Text, cksum: Byte, q: nat, chars: Text)
    requires LegalName(name) && Encodable(name) && 1 <= q <= Records(name)
    ensures DecodeRaw(RawOf(LfnRecord(name, cksum, q)), 0, chars)
            == Ok((|Chunk(name, q)| < 12, chars + Chunk(name, q)))
  {
    hide DecodeRaw, DecodeUnits, RawOf, Record, Utf16All, U16;
    var chunk := Chunk(name, q);
    var us := Filled(chunk);
    assert forall i :: 0 <= i < |chunk| ==> chunk[i] == name[13 * (q - 1) + i];
    RawUnits(us);
    RawOfRecord(Ord(q, Records(name)), cksum, Utf16All(us));
    DecodeRawUnits(Utf16All(us), us, 0, chars);
    assert us[0..] == us;
    DecodeFilled(chunk, chars);
  }

  /** Whether the last chunk leaves room for 0xFFFF padding. */
  predicate Padded(name: Text) { |name| % 13 != 0 && |name| % 13 != 12 }

  ghost predicate Yields(e: Bytes, chunk: Text) {
    forall chars :: DecodeRaw(RawOf(e), 0, chars) == Ok((|chunk| < 12, chars + chunk))
  }

  lemma RecordYields(name: Text, cksum: Byte, q: nat)
    requires LegalName(name) && Encodable(name) && 1 <= q <= Records(name)
    ensures Yields(LfnRecord(name, cksum, q), Chunk(name, q))
  {
    forall chars
      ensures DecodeRaw(RawOf(LfnRecord(name, cksum, q)), 0, chars)
              == Ok((|Chunk(name, q)| < 12, chars + Chunk(name, q)))
    {
      DecodeRecord(name, cksum, q, chars);
    }
  }

  lemma {:induction false} DecodeFrom(name: Text, q: nat, es: seq<Bytes>)
    requires q < Records(name) && |es| == Records(name) - q
    requires forall i :: 0 <= i < |es| ==> Yields(es[i], Chunk(name, q + i + 1))
    ensures DecodeSorted(es, name[..13 * q]) == Ok((Padded(name), name))
    decreases |es|
  {
    hide Chunk, RawOf, Padded;
    ChunkAppends(name, q + 1);
    assert Yields(es[0], Chunk(name, q + 1));
    if q + 1 < Records(name) {
      DecodeFrom(name, q + 1, es[1..]);
    } else {
      assert es[1..] == [];
    }
  }

  lemma ChunkAppends(name: Text, q: nat)
    requires 1 <= q <= Records(name)
    ensures q < Records(name) ==> |Chunk(name, q)| == 13 && name[..13 * (q - 1)] + Chunk(name, q) == name[..13 * q]
    ensures q == Records(name) ==> name[..13 * (q - 1)] + Chunk(name, q) == name
    ensures q == Records(name) ==> (|Chunk(name, q)| < 12 <==> Padded(name))
  {}

  lemma EncodableIs(name: Text)
    ensures Encodable(name) <==> |name| <= 3315 && forall i :: 0 <= i < |name| ==> !(0xD800 <= name[i] <= 0xDFFF)
  {}

  lemma LegalIsEncodable(name: Text)
    requires LegalName(name)
    ensures Encodable(name) && 1 <= Records(name) <= 63
  {}

  /** Decoding the records of one short entry beside another: the name comes back,
      whatever the checksums, as soon as there is 0xFFFF padding; only unpadded
      names are checked. */
  lemma LfnDecodeAny(name: Text, short: Bytes, other: Bytes)
    requires LegalName(name) && Encodable(name)
    ensures LfnDecode(LfnRecords(name, short), other)
            == Ok(if Padded(name) || Checksum(other) == Checksum(short) then name else [])
  {
    hide SortByOrd, DecodeSorted, LfnRecord, Yields, LegalName, Chunk;
    LegalIsEncodable(name);
    var cksum, pending := Checksum(short), LfnRecords(name, short);
    SortReverses(pending);
    var es := SortByOrd(pending);
    forall i | 0 <= i < |es|
      ensures Yields(es[i], Chunk(name, i + 1)) && es[i][13] == cksum
    {
      RecordYields(name, cksum, i + 1);
    }
    DecodeFrom(name, 0, es);
    assert name[..0] == [];
  }

  /** Everything decoded lies strictly between NUL and 0xFFFF. */
  predicate InRange(t: Text) { forall i :: 0 <= i < |t| ==> 0 < t[i] < 0xFFFF }

  lemma {:induction false} DecodeRawInRange(raw: Bytes, i: nat, chars: Text)
    requires i <= 26 && InRange(chars)
    ensures DecodeRaw(raw, i, chars).Ok? ==> InRange(DecodeRaw(raw, i, chars).value.1)
    decreases 26 - i
  {
    if i < 25 && |raw| >= i + 2 && U16(raw, i) != 0xFFFF {
      DecodeRawInRange(raw, i + 2, if U16(raw, i) != 0 then chars + [U16(raw, i)] else chars);
    }
  }

  lemma {:induction false} DecodeSortedInRange(es: seq<Bytes>, chars: Text)
    requires InRange(chars)
    ensures DecodeSorted(es, chars).Ok? ==> InRange(DecodeSorted(es, chars).value.1)
    decreases |es|
  {
    hide DecodeRaw, RawOf;
    if es != [] {
      DecodeRawInRange(RawOf(es[0]), 0, chars);
      var one := DecodeRaw(RawOf(es[0]), 0, chars);
      if one.Ok? { DecodeSortedInRange(es[1..], one.value.1); }
    }
  }

  /** The names that survive the codec, among those it encodes into at most 63
      records: exactly those without NUL, 0xFFFF and characters beyond the BMP. */
  lemma RoundTripIffInRange(name: Text, short: Bytes)
    requires Encodable(name) && 0 < |name| <= 819
    ensures LfnDecode(LfnRecords(name, short), short) == Ok(name) <==> InRange(name)
  {
    hide DecodeSorted;
    if InRange(name) {
      LfnRoundTrip(name, short);
    }
    DecodeSortedInRange(SortByOrd(LfnRecords(name, short)), []);
  }

  /** A name beyond the BMP (one character, U+1F600) is encoded but not read back. */
  lemma AstralNameLost(short: Bytes)
    ensures Encodable([0x1F600]) && LfnDecode(LfnRecords([0x1F600], short), short) != Ok([0x1F600])
  {
    var name: Text := [0x1F600];
    assert name[0] >= 0xFFFF;
    RoundTripIffInRange(name, short);
  }

  /** Every legal name survives the codec. */
  lemma LfnRoundTrip(name: Text, short: Bytes)
    requires LegalName(name) && Encodable(name)
    ensures LfnDecode(LfnRecords(name, short), short) == Ok(name)
  {
    LfnDecodeAny(name, short, short);
  }

  /** The records of another entry are refused exactly when the name leaves no
      padding and the checksums differ. */
  lemma StaleRecordsRefused(name: Text, short: Bytes, other: Bytes)
    requires LegalName(name) && Encodable(name)
    ensures LfnDecode(LfnRecords(name, short), other) == Ok([])
            <==> |name| % 13 in {0, 12} && Checksum(other) != Checksum(short)
  {
    LfnDecodeAny(name, short, other);
  }

  /** "a" filed under one short name is still believed next to a different one
      with a different checksum. */
  lemma StaleRecordsAccepted() returns (short: Bytes, other: Bytes)
    ensures Checksum(other) != Checksum(short)
    ensures LfnDecode(LfnRecords([97], short), other) == Ok([97])
  {
    short := Zeros(11);
    other := short[0 := 1];
    ChecksumDetects(short, 0, 1, 0);
    LfnDecodeAny([97], short, other);
  }
}
