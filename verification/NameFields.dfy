/** The bytes of an 8.3 field, in terms of the characters of the name. */
module NameFields {
  import opened ByteStrings
  import opened ShortNames

  // ---- folding ----

  /** What one character becomes: lower-case ASCII letters in upper case, other ASCII
      characters as they are, the rest nothing. */
  predicate FoldsTo(c: CodePoint, r: Bytes) {
    r == if c >= 128 then [] else if 97 <= c <= 122 then [c - 32] else [c]
  }

  /** Folding goes character by character. */
  lemma FoldsEach(c: CodePoint, t: Text)
    ensures AsciiUpper([]) == [] && FoldsTo(c, AsciiUpper([c]))
    ensures AsciiUpper([c] + t) == AsciiUpper([c]) + AsciiUpper(t)
  {
    assert ([c] + t)[1..] == t && [c][1..] == [];
  }

  predicate Ascii(t: Text) { forall i :: 0 <= i < |t| ==> t[i] < 128 }

  /** Byte `b` is character `c` in upper case. */
  predicate IsUpper(b: Byte, c: CodePoint) { b as int == if 97 <= c <= 122 then c - 32 else c }

  /** Exactly the ASCII texts keep their length. */
  lemma {:induction false} FoldedLength(t: Text)
    ensures |AsciiUpper(t)| == |t| <==> Ascii(t)
    decreases |t|
  {
    hide Ascii;
    if t == [] {
      NothingIsAscii();
    } else {
      FoldedLength(t[1..]);
      AsciiCons(t);
    }
  }

  lemma NothingIsAscii()
    ensures Ascii([])
  {}

  /** In them every character keeps its place. */
  lemma {:induction false} FoldedAscii(t: Text)
    requires Ascii(t)
    ensures |AsciiUpper(t)| == |t| && forall i :: 0 <= i < |t| ==> IsUpper(AsciiUpper(t)[i], t[i])
    decreases |t|
  {
    hide Ascii;
    if t != [] {
      var u := t[1..];
      AsciiCons(t);
      FoldedAscii(u);
      assert AsciiUpper(t) == [Upper(t[0])] + AsciiUpper(u);
      assert forall i :: 0 < i < |t| ==> t[i] == u[i - 1];
    }
  }

  lemma AsciiCons(t: Text)
    requires t != []
    ensures Ascii(t) <==> t[0] < 128 && Ascii(t[1..])
  {
    assert forall i :: 0 < i < |t| ==> t[i] == t[1..][i - 1];
  }

  /** A name is its stem and its extension around the last dot, or all stem. */
  lemma StemAndExtension(name: Text)
    ensures 46 !in Extension(name)
    ensures if 46 in name then name == Stem(name) + [46] + Extension(name)
            else Stem(name) == name && Extension(name) == []
  {}

  // ---- the two forms ----

  /** The eight and three characters of a field that shows the parts as they are. */
  ghost predicate IsDirect(stem: Text, ext: Text, s: Bytes) {
    && |s| == 11 && Ascii(stem) && Ascii(ext) && |stem| <= 8 && |ext| <= 3
    && (forall i :: 0 <= i < 8 ==> if i < |stem| then IsUpper(s[i], stem[i]) else s[i] == 32)
    && (forall i :: 8 <= i < 11 ==> if i - 8 < |ext| then IsUpper(s[i], ext[i - 8]) else s[i] == 32)
  }

  /** `d` is the number `n` in decimal. */
  ghost predicate InDecimal(d: Bytes, n: nat) {
    && 1 <= |d| <= 3 && (forall i :: 0 <= i < |d| ==> 48 <= d[i] <= 57) && d[0] != 48
    && n == if |d| == 1 then d[0] as int - 48
            else if |d| == 2 then 10 * (d[0] as int - 48) + d[1] as int - 48
            else 100 * (d[0] as int - 48) + 10 * (d[1] as int - 48) + d[2] as int - 48
  }

  /** What stands before the number: the first six characters of an ASCII stem, filled up
      to three with underscores; "GUNAME" where a part is not ASCII. */
  ghost predicate IsStart(stem: Text, ext: Text, start: Bytes) {
    if Ascii(stem) && Ascii(ext) then
      && |start| == Max(3, Min(6, |stem|))
      && forall i :: 0 <= i < |start| ==> if i < |stem| then IsUpper(start[i], stem[i]) else start[i] == 95
    else start == [0x47, 0x55, 0x4E, 0x41, 0x4D, 0x45]
  }

  /** A numbered field: the start, a tilde and the number, cut and filled to eight, and
      the first three characters of the folded extension. */
  ghost predicate IsNumbered(stem: Text, ext: Text, n: nat, s: Bytes) {
    && |s| == 11
    && exists start: Bytes, d: Bytes :: IsStart(stem, ext, start) && InDecimal(d, n) && Shows(start, d, ext, s)
  }

  ghost predicate Shows(start: Bytes, d: Bytes, ext: Text, s: Bytes)
    requires |s| == 11
  {
    var e := AsciiUpper(ext);
    && (forall i :: 0 <= i < 8 ==>
          s[i] == if i < |start| then start[i]
                  else if i == |start| then 126
                  else if i - |start| - 1 < |d| then d[i - |start| - 1] else 32)
    && forall i :: 8 <= i < 11 ==> s[i] == if i - 8 < |e| then e[i - 8] else 32
  }

  lemma DirectIs(name: Text)
    ensures var p := PartsOf(name);
      && (p.Fits() <==> Ascii(Stem(name)) && Ascii(Extension(name)) && |Stem(name)| <= 8 && |Extension(name)| <= 3)
      && (p.Fits() ==> IsDirect(Stem(name), Extension(name), p.Direct()))
      && (p.ascii <==> Ascii(Stem(name)) && Ascii(Extension(name)))
  {
    hide LastDot, Stem, Extension, AsciiUpper, Ascii, IsUpper;
    FoldedLength(Stem(name));
    FoldedLength(Extension(name));
    if Ascii(Stem(name)) && Ascii(Extension(name)) {
      FoldedAscii(Stem(name));
      FoldedAscii(Extension(name));
    }
  }

  lemma StartIs(name: Text)
    ensures IsStart(Stem(name), Extension(name), PartsOf(name).Prefix())
  {
    hide LastDot, Stem, Extension, AsciiUpper, Ascii, IsUpper;
    FoldedLength(Stem(name));
    FoldedLength(Extension(name));
    if Ascii(Stem(name)) && Ascii(Extension(name)) {
      FoldedAscii(Stem(name));
      FoldedAscii(Extension(name));
    }
  }

  lemma DigitsAre(n: nat)
    requires 1 <= n < 1000
    ensures InDecimal(Digits(n), n)
  {
    ThreeDigits(n);
  }

  lemma CandidateShows(start: Bytes, ext: Text, n: nat)
    requires |start| <= 6 && 1 <= n < 1000
    ensures Shows(start, Digits(n), ext, Candidate(start, AsciiUpper(ext), n))
  {
    hide AsciiUpper, Digits;
  }

  /** The number chosen is the least whose field is free. */
  lemma {:induction false} FirstFreeIsLeast(prefix: Bytes, ext: Bytes, taken: set<Bytes>, n: nat) returns (k: nat)
    requires 1 <= n <= 1000 && FirstFree(prefix, ext, taken, n).Some?
    ensures n <= k < 1000 && FirstFree(prefix, ext, taken, n).value == Candidate(prefix, ext, k)
    ensures Candidate(prefix, ext, k) !in taken
    ensures forall j :: n <= j < k ==> Candidate(prefix, ext, j) in taken
    decreases 1000 - n
  {
    k := n;
    if Candidate(prefix, ext, n) in taken {
      k := FirstFreeIsLeast(prefix, ext, taken, n + 1);
    }
  }

  /** The field chosen for a name: the direct form of its parts where they are ASCII and
      short enough and that form is free, otherwise the numbered form with the least
      number that is free. */
  lemma FieldOfName(name: Text, taken: set<Bytes>)
    requires ShortName(name, taken).Some?
    ensures var s, stem, ext := ShortName(name, taken).value, Stem(name), Extension(name);
      && s !in taken
      && (IsDirect(stem, ext, s)
          || exists n :: 1 <= n < 1000 && IsNumbered(stem, ext, n, s)
               && (forall d: Bytes :: IsDirect(stem, ext, d) ==> d in taken)
               && forall m: nat, d: Bytes :: 1 <= m < n && IsNumbered(stem, ext, m, d) ==> d in taken)
  {
    hide PartsOf, Parts.Fits, Parts.Direct, Parts.Prefix, Candidate, IsDirect, IsNumbered, Stem, Extension;
    var p, s, stem, ext := PartsOf(name), ShortName(name, taken).value, Stem(name), Extension(name);
    DirectIs(name);
    PartsAre(name);
    if p.Fits() && p.Direct() !in taken {
      assert IsDirect(stem, ext, s);
    } else {
      var n := FirstFreeIsLeast(p.Prefix(), p.ext, taken, 1);
      NumberedIs(name, n);
      forall d: Bytes | IsDirect(stem, ext, d)
        ensures d in taken
      {
        DirectFits(name, d);
        DirectUnique(stem, ext, d, p.Direct());
      }
      forall m: nat, d: Bytes | 1 <= m < n && IsNumbered(stem, ext, m, d)
        ensures d in taken
      {
        NumberedIs(name, m);
        NumberedUnique(stem, ext, m, d, Candidate(p.Prefix(), p.ext, m));
      }
    }
  }

  lemma PartsAre(name: Text)
    ensures PartsOf(name).ext == AsciiUpper(Extension(name)) && |PartsOf(name).Prefix()| <= 6
  {}

  lemma NumberedIs(name: Text, n: nat)
    requires 1 <= n < 1000
    ensures IsNumbered(Stem(name), Extension(name), n, Candidate(PartsOf(name).Prefix(), PartsOf(name).ext, n))
  {
    hide LastDot, Stem, Extension, AsciiUpper, IsStart, InDecimal, Shows, Candidate, Digits, Parts.Prefix;
    PartsAre(name);
    StartIs(name);
    DigitsAre(n);
    CandidateShows(PartsOf(name).Prefix(), Extension(name), n);
  }

  lemma DirectFits(name: Text, d: Bytes)
    requires IsDirect(Stem(name), Extension(name), d)
    ensures PartsOf(name).Fits()
  {
    hide PartsOf, Parts.Fits, Stem, Extension, Ascii;
    DirectIs(name);
  }

  lemma DirectUnique(stem: Text, ext: Text, a: Bytes, b: Bytes)
    requires IsDirect(stem, ext, a) && IsDirect(stem, ext, b)
    ensures a == b
  {
    hide Ascii;
    forall i | 0 <= i < 11
      ensures a[i] == b[i]
    {
    }
  }

  lemma NumberedUnique(stem: Text, ext: Text, n: nat, a: Bytes, b: Bytes)
    requires IsNumbered(stem, ext, n, a) && IsNumbered(stem, ext, n, b)
    ensures a == b
  {
    hide IsStart, InDecimal, Shows, AsciiUpper;
    var s, d: Bytes :| IsStart(stem, ext, s) && InDecimal(d, n) && Shows(s, d, ext, a);
    var t, e: Bytes :| IsStart(stem, ext, t) && InDecimal(e, n) && Shows(t, e, ext, b);
    StartUnique(stem, ext, s, t);
    DecimalUnique(n, d, e);
    ShowsUnique(s, d, ext, a, b);
  }

  lemma StartUnique(stem: Text, ext: Text, s: Bytes, t: Bytes)
    requires IsStart(stem, ext, s) && IsStart(stem, ext, t)
    ensures s == t
  {
    hide Ascii;
  }

  lemma DecimalUnique(n: nat, d: Bytes, e: Bytes)
    requires InDecimal(d, n) && InDecimal(e, n)
    ensures d == e
  {
    DecimalIs(n, d);
    DecimalIs(n, e);
  }

  lemma DecimalIs(n: nat, d: Bytes)
    requires InDecimal(d, n)
    ensures 1 <= n < 1000 && d == Digits(n)
  {
    if |d| == 1 {
    } else if |d| == 2 {
      assert n / 10 == d[0] as int - 48 && n % 10 == d[1] as int - 48;
    } else {
      assert n / 10 == 10 * (d[0] as int - 48) + d[1] as int - 48 && n % 10 == d[2] as int - 48;
      assert n / 100 == n / 10 / 10;
    }
  }

  lemma ShowsUnique(start: Bytes, d: Bytes, ext: Text, a: Bytes, b: Bytes)
    requires |a| == 11 == |b| && Shows(start, d, ext, a) && Shows(start, d, ext, b)
    ensures a == b
  {
    hide AsciiUpper;
    forall i | 0 <= i < 11
      ensures a[i] == b[i]
    {
    }
  }

  // ---- reading a field ----

  /** Python's white space on the Latin-1 range. */
  predicate White(c: Byte) {
    c in {0x09, 0x0A, 0x0B, 0x0C, 0x0D, 0x1C, 0x1D, 0x1E, 0x1F, 0x20, 0x85, 0xA0}
  }

  /** `r` is `t` without the white space at its end. */
  predicate IsStripped(t: Bytes, r: Bytes) {
    r <= t && (forall i :: |r| <= i < |t| ==> White(t[i])) && (r != [] ==> !White(r[|r| - 1]))
  }

  lemma {:induction false} RStripIs(t: Bytes)
    ensures IsStripped(t, RStrip(t))
    decreases |t|
  {
    if t != [] && IsSpace(t[|t| - 1]) { RStripIs(t[..|t| - 1]); }
  }

  /** A field reads as its first eight bytes, and a dot and its last three if anything is
      left of them, white space at the end of each stripped. */
  lemma ReadsAs(s: Bytes)
    requires |s| == 11
    ensures exists base: Bytes, ext: Bytes :: IsStripped(s[..8], base) && IsStripped(s[8..], ext)
              && ShortToName(s) == if ext == [] then base else base + [46] + ext
  {
    hide RStrip, IsStripped;
    RStripIs(s[..8]);
    RStripIs(s[8..]);
    var base, ext := RStrip(s[..8]), RStrip(s[8..]);
    assert base + [] == base && base + ([46] + ext) == base + [46] + ext;
    assert ShortToName(s) == if ext == [] then base else base + [46] + ext;
  }

  // ---- examples ----

  /** "boot.efi" in an empty directory is "BOOT    EFI". */
  lemma BootField()
    ensures ShortName([98, 111, 111, 116, 46, 101, 102, 105], {})
            == Some([66, 79, 79, 84, 32, 32, 32, 32, 69, 70, 73])
  {
    hide PartsOf, Parts.Fits, Parts.Direct, LastDot;
    var name: Text := [98, 111, 111, 116, 46, 101, 102, 105];
    assert name[4] == 46 && LastDot(name) == 4;
    assert Stem(name) == [98, 111, 111, 116] && Extension(name) == [101, 102, 105];
    DirectIs(name);
    var s := PartsOf(name).Direct();
    assert s == [66, 79, 79, 84, 32, 32, 32, 32, 69, 70, 73];
  }

  /** A long name shows six characters, "~1" and three of its extension: "documents.text"
      in an empty directory is "DOCUME~1TEX". */
  lemma LongField()
    ensures ShortName([100, 111, 99, 117, 109, 101, 110, 116, 115, 46, 116, 101, 120, 116], {})
            == Some([68, 79, 67, 85, 77, 69, 126, 49, 84, 69, 88])
  {
    hide LastDot, AsciiUpper, PartsOf, Shows, IsStart, Ascii, ShortName, InDecimal, IsUpper;
    var name: Text := [100, 111, 99, 117, 109, 101, 110, 116, 115, 46, 116, 101, 120, 116];
    var stem: Text, ext: Text := [100, 111, 99, 117, 109, 101, 110, 116, 115], [116, 101, 120, 116];
    assert name[9] == 46 && LastDot(name) == 9;
    assert Stem(name) == stem && Extension(name) == ext;
    hide Stem, Extension;
    DirectIs(name);
    LongStart(stem, ext);
    TextExtension();
    ChosenFirst(name);
    OneDecimal();
    ShownField(stem, ext, [68, 79, 67, 85, 77, 69], [49], [84, 69, 88, 84], 1, ShortName(name, {}).value);
    assert ShortName(name, {}).value == [68, 79, 67, 85, 77, 69, 126, 49, 84, 69, 88];
  }

  lemma OneDecimal()
    ensures InDecimal([49], 1)
  {}

  lemma LongStart(stem: Text, ext: Text)
    requires stem == [100, 111, 99, 117, 109, 101, 110, 116, 115] && ext == [116, 101, 120, 116]
    ensures IsStart(stem, ext, [68, 79, 67, 85, 77, 69])
  {}

  lemma TextExtension()
    ensures AsciiUpper([116, 101, 120, 116]) == [84, 69, 88, 84]
  {
    hide AsciiUpper;
    var ext: Text := [116, 101, 120, 116];
    FoldedAscii(ext);
    assert AsciiUpper(ext) == [84, 69, 88, 84];
  }

  /** The eleven bytes of a numbered field whose start fills six. */
  lemma ShownField(stem: Text, ext: Text, start: Bytes, d: Bytes, e: Bytes, n: nat, s: Bytes)
    requires IsNumbered(stem, ext, n, s) && IsStart(stem, ext, start) && InDecimal(d, n)
    requires |start| == 6 && |d| == 1 && e == AsciiUpper(ext) && |e| >= 3
    ensures s == start + [126] + d + e[..3]
  {
    hide IsStart, InDecimal, AsciiUpper;
    var t: Bytes, f: Bytes :| IsStart(stem, ext, t) && InDecimal(f, n) && Shows(t, f, ext, s);
    StartUnique(stem, ext, start, t);
    DecimalUnique(n, d, f);
  }

  /** A name outside ASCII goes by "GUNAME" and keeps what its extension has of ASCII:
      U+4E2D, ".efi" in an empty directory is "GUNAME~1EFI". */
  lemma ForeignField()
    ensures ShortName([0x4E2D, 46, 101, 102, 105], {}) == Some([71, 85, 78, 65, 77, 69, 126, 49, 69, 70, 73])
  {
    hide LastDot, AsciiUpper, PartsOf, Shows, IsStart, Ascii, ShortName, InDecimal, IsUpper;
    var name: Text, stem: Text, ext: Text := [0x4E2D, 46, 101, 102, 105], [0x4E2D], [101, 102, 105];
    assert name[1] == 46 && LastDot(name) == 1;
    assert Stem(name) == stem && Extension(name) == ext;
    hide Stem, Extension;
    DirectIs(name);
    ForeignStart();
    EfiExtension();
    ChosenFirst(name);
    OneDecimal();
    ShownField(stem, ext, [71, 85, 78, 65, 77, 69], [49], [69, 70, 73], 1, ShortName(name, {}).value);
    assert ShortName(name, {}).value == [71, 85, 78, 65, 77, 69, 126, 49, 69, 70, 73];
  }

  lemma ForeignStart()
    ensures !Ascii([0x4E2D]) && IsStart([0x4E2D], [101, 102, 105], [71, 85, 78, 65, 77, 69])
  {
    var t: Text := [0x4E2D];
    assert t[0] == 0x4E2D;
  }

  lemma EfiExtension()
    ensures AsciiUpper([101, 102, 105]) == [69, 70, 73]
  {
    hide AsciiUpper;
    var ext: Text := [101, 102, 105];
    FoldedAscii(ext);
    assert AsciiUpper(ext) == [69, 70, 73];
  }

  /** In an empty directory a name without direct form gets number 1. */
  lemma ChosenFirst(name: Text)
    requires !PartsOf(name).Fits()
    ensures ShortName(name, {}).Some? && IsNumbered(Stem(name), Extension(name), 1, ShortName(name, {}).value)
  {
    hide PartsOf, Parts.Fits, Parts.Prefix, Candidate, IsNumbered, Stem, Extension;
    var p := PartsOf(name);
    assert FirstFree(p.Prefix(), p.ext, {}, 1) == Some(Candidate(p.Prefix(), p.ext, 1));
    NumberedIs(name, 1);
  }
}
