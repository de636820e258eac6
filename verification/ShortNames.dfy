/** 8.3 names: generation within one directory, and reading the field back. */
module ShortNames {
  import opened ByteStrings

  type CodePoint = c: int | 0 <= c < 0x11_0000
  type Text = seq<CodePoint>

  const SPACE: Byte := 32
  const DOT: Byte := 46
  const TILDE: Byte := 126
  const UNDERSCORE: Byte := 95
  const GUNAME: Bytes := [0x47, 0x55, 0x4E, 0x41, 0x4D, 0x45]

  // ---- splitting and folding ----

  /** Index of the last dot, or -1. */
  function LastDot(name: Text): (r: int)
    ensures -1 <= r < |name|
    ensures r >= 0 ==> name[r] == 46
    ensures forall i :: r < i < |name| ==> name[i] != 46
  {
    if name == [] then -1
    else if name[|name| - 1] == 46 then |name| - 1
    else LastDot(name[..|name| - 1])
  }

  function Stem(name: Text): Text {
    if LastDot(name) < 0 then name else name[..LastDot(name)]
  }

  function Extension(name: Text): Text {
    if LastDot(name) < 0 then [] else name[LastDot(name) + 1..]
  }

  function Upper(c: Byte): (r: Byte)
    requires c < 128
    ensures r < 128 && (r == 0 ==> c == 0)
  {
    if 97 <= c <= 122 then c - 32 else c
  }

  /** The ASCII characters of `t`, in upper case; the others dropped. */
  function AsciiUpper(t: Text): (r: Bytes)
    ensures |r| <= |t|
    ensures forall i :: 0 <= i < |r| ==> r[i] < 128
    ensures 0 !in t ==> 0 !in r
  {
    if t == [] then []
    else if t[0] < 128 then [Upper(t[0])] + AsciiUpper(t[1..])
    else AsciiUpper(t[1..])
  }

  function Take(b: Bytes, n: nat): (r: Bytes)
    ensures |r| == Min(n, |b|) && forall i :: 0 <= i < |r| ==> r[i] == b[i]
  {
    b[..Min(n, |b|)]
  }

  function Pad(b: Bytes, n: nat, fill: Byte): (r: Bytes)
    ensures |r| == Max(n, |b|) && forall i :: 0 <= i < |r| ==> r[i] == if i < |b| then b[i] else fill
  {
    if |b| < n then b + seq(n - |b|, _ => fill) else b
  }

  // ---- short_name ----

  /** `str(n)` for the numbers the loop tries. */
  function Digits(n: nat): (r: Bytes)
    requires 1 <= n < 1000
    ensures 1 <= |r| <= 3 && forall i :: 0 <= i < |r| ==> 48 <= r[i] <= 57
  {
    if n < 10 then [48 + n]
    else if n < 100 then [48 + n / 10, 48 + n % 10]
    else [48 + n / 100, 48 + n / 10 % 10, 48 + n % 10]
  }

  predicate IsPrefix(prefix: Bytes) {
    3 <= |prefix| <= 6 && forall i :: 0 <= i < |prefix| ==> 0 < prefix[i] < 128
  }

  function Candidate(prefix: Bytes, ext: Bytes, n: nat): (r: Bytes)
    requires 1 <= n < 1000
    ensures |r| == 11
  {
    Pad(Take(Take(prefix, 6) + [TILDE] + Digits(n), 8), 8, SPACE) + Pad(Take(ext, 3), 3, SPACE)
  }

  /** The parts of a name: folded stem and extension, and whether folding dropped nothing. */
  datatype Parts = Parts(base: Bytes, ext: Bytes, ascii: bool) {
    predicate Fits() { ascii && |base| <= 8 && |ext| <= 3 }

    function Direct(): Bytes {
      Pad(base, 8, SPACE) + Pad(ext, 3, SPACE)
    }

    function Prefix(): Bytes {
      Pad(Take(if ascii then base else GUNAME, 6), 3, UNDERSCORE)
    }
  }

  function PartsOf(name: Text): Parts {
    var b, e := AsciiUpper(Stem(name)), AsciiUpper(Extension(name));
    Parts(b, e, |b| == |Stem(name)| && |e| == |Extension(name)|)
  }

  function FirstFree(prefix: Bytes, ext: Bytes, taken: set<Bytes>, n: nat): (r: Option<Bytes>)
    requires 1 <= n <= 1000
    ensures r.Some? ==> |r.value| == 11
    decreases 1000 - n
  {
    if n == 1000 then None
    else if Candidate(prefix, ext, n) !in taken then Some(Candidate(prefix, ext, n))
    else FirstFree(prefix, ext, taken, n + 1)
  }

  /** The 8.3 field chosen for `name` when `taken` are in use; None where the
      program gives up. */
  function ShortName(name: Text, taken: set<Bytes>): (r: Option<Bytes>)
    ensures r.Some? ==> |r.value| == 11
  {
    var p := PartsOf(name);
    if p.Fits() && p.Direct() !in taken then Some(p.Direct())
    else FirstFree(p.Prefix(), p.ext, taken, 1)
  }

  /** `short_name`, which also adds its result to the directory's `taken` set. */
  method TakeShortName(name: Text, taken: set<Bytes>) returns (r: Option<Bytes>, taken': set<Bytes>)
    ensures r == ShortName(name, taken)
    ensures taken' == if r.Some? then taken + {r.value} else taken
  {
    var p := PartsOf(name);
    if p.Fits() {
      var short := p.Direct();
      if short !in taken {
        return Some(short), taken + {short};
      }
    }
    var prefix := p.Prefix();
    for n := 1 to 1000
      invariant FirstFree(prefix, p.ext, taken, 1) == FirstFree(prefix, p.ext, taken, n)
    {
      var short := Candidate(prefix, p.ext, n);
      if short !in taken {
        return Some(short), taken + {short};
      }
    }
    return None, taken;
  }

  // ---- when it succeeds ----

  /** How many different candidates a prefix of this length yields: the numbers
      past the eighth character are cut. */
  function Limit(prefixLen: nat): nat {
    if prefixLen >= 6 then 9 else if prefixLen == 5 then 99 else 999
  }

  function Leading(n: nat, prefixLen: nat): nat {
    if n <= Limit(prefixLen) then n
    else if prefixLen == 5 || n < 100 then n / 10
    else n / 100
  }

  lemma PrefixShape(name: Text)
    requires 0 !in name
    ensures IsPrefix(PartsOf(name).Prefix())
  {
    hide AsciiUpper, LastDot;
    assert 0 !in Stem(name);
    var b := PartsOf(name).base;
    assert forall i :: 0 <= i < |b| ==> b[i] != 0;
  }

  /** Every candidate is one of the first `Limit`. */
  lemma CutToLeading(prefix: Bytes, ext: Bytes, n: nat)
    requires 3 <= |prefix| <= 6 && 1 <= n < 1000
    ensures 1 <= Leading(n, |prefix|) <= Limit(|prefix|)
    ensures Candidate(prefix, ext, n) == Candidate(prefix, ext, Leading(n, |prefix|))
  {
    var m := Leading(n, |prefix|);
    var stem := Take(prefix, 6) + [TILDE];
    if m != n {
      assert Take(stem + Digits(n), 8) == Take(stem + Digits(m), 8);
    }
  }

  /** The first `Limit` candidates are pairwise different. */
  lemma CandidatesDiffer(prefix: Bytes, ext: Bytes, n: nat, m: nat)
    requires 3 <= |prefix| <= 6 && 1 <= n < m <= Limit(|prefix|)
    ensures Candidate(prefix, ext, n) != Candidate(prefix, ext, m)
  {
    hide Candidate, Digits;
    CandidateAt(prefix, ext, n);
    CandidateAt(prefix, ext, m);
    var i := DigitsDiffer(n, m);
    var at, d, e := |prefix| + 1 + i, Digits(n), Digits(m);
    assert Candidate(prefix, ext, m)[at] == e[i];
    if i < |d| {
      assert Candidate(prefix, ext, n)[at] == d[i];
    } else {
      assert Candidate(prefix, ext, n)[at] == SPACE;
    }
  }

  lemma ThreeDigits(n: nat)
    ensures n == 100 * (n / 100) + 10 * (n / 10 % 10) + n % 10
  {
    assert n / 100 == n / 10 / 10;
  }

  /** Where the digits of two numbers first tell them apart. */
  lemma DigitsDiffer(n: nat, m: nat) returns (i: nat)
    requires 1 <= n < m < 1000
    ensures i < |Digits(m)| && i <= |Digits(n)| && (i < |Digits(n)| ==> Digits(n)[i] != Digits(m)[i])
  {
    ThreeDigits(n);
    ThreeDigits(m);
    var a, b := Digits(n), Digits(m);
    if |a| < |b| {
      i := |a|;
    } else {
      i := if a[0] != b[0] then 0 else if a[1] != b[1] then 1 else 2;
    }
  }

  /** Short of the limit the number stands in full behind the prefix. */
  lemma CandidateAt(prefix: Bytes, ext: Bytes, n: nat)
    requires 3 <= |prefix| <= 6 && 1 <= n <= Limit(|prefix|)
    ensures var p, d := |prefix| + 1, Digits(n);
      && p + |d| <= 8
      && (forall i :: 0 <= i < |d| ==> Candidate(prefix, ext, n)[p + i] == d[i])
      && (p + |d| < 8 ==> Candidate(prefix, ext, n)[p + |d|] == SPACE)
  {}

  lemma {:induction false} FirstFreeSpec(prefix: Bytes, ext: Bytes, taken: set<Bytes>, n: nat)
    requires 1 <= n <= 1000
    ensures var r := FirstFree(prefix, ext, taken, n);
      && (r.None? <==> forall k :: n <= k < 1000 ==> Candidate(prefix, ext, k) in taken)
      && (r.Some? ==> r.value !in taken && exists k :: n <= k < 1000 && r.value == Candidate(prefix, ext, k))
    decreases 1000 - n
  {
    if n < 1000 && Candidate(prefix, ext, n) in taken {
      FirstFreeSpec(prefix, ext, taken, n + 1);
    }
  }

  ghost predicate Exhausted(prefix: Bytes, ext: Bytes, taken: set<Bytes>)
    requires 3 <= |prefix| <= 6
  {
    forall k :: 1 <= k <= Limit(|prefix|) ==> Candidate(prefix, ext, k) in taken
  }

  /** Generation fails exactly when the direct form is unusable and each of the
      first `Limit` candidates is taken. */
  lemma FailsIffExhausted(name: Text, taken: set<Bytes>)
    ensures var p := PartsOf(name);
      ShortName(name, taken).None?
      <==> (p.Fits() ==> p.Direct() in taken) && Exhausted(p.Prefix(), p.ext, taken)
  {
    var p := PartsOf(name);
    FirstFreeSpec(p.Prefix(), p.ext, taken, 1);
    if Exhausted(p.Prefix(), p.ext, taken) {
      forall k | 1 <= k < 1000
        ensures Candidate(p.Prefix(), p.ext, k) in taken
      {
        CutToLeading(p.Prefix(), p.ext, k);
      }
    }
  }

  function Candidates(prefix: Bytes, ext: Bytes, n: nat): set<Bytes>
    requires n < 1000
  {
    set k | 1 <= k <= n :: Candidate(prefix, ext, k)
  }

  lemma {:induction false} CandidateCount(prefix: Bytes, ext: Bytes, n: nat)
    requires 3 <= |prefix| <= 6 && n <= Limit(|prefix|)
    ensures |Candidates(prefix, ext, n)| == n
  {
    hide Candidate;
    if n > 0 {
      CandidateCount(prefix, ext, n - 1);
      forall k | 1 <= k < n ensures Candidate(prefix, ext, k) != Candidate(prefix, ext, n) {
        CandidatesDiffer(prefix, ext, k, n);
      }
      assert Candidates(prefix, ext, n) == Candidates(prefix, ext, n - 1) + {Candidate(prefix, ext, n)};
    }
  }

  /** The 999 tries give exactly `Limit` different names: nine for a
      six-character prefix. */
  lemma TriesYieldLimit(prefix: Bytes, ext: Bytes)
    requires 3 <= |prefix| <= 6
    ensures |Candidates(prefix, ext, 999)| == Limit(|prefix|)
    ensures |prefix| == 6 ==> |Candidates(prefix, ext, 999)| == 9
  {
    CandidateCount(prefix, ext, Limit(|prefix|));
    forall k | 1 <= k < 1000
      ensures Candidate(prefix, ext, k) in Candidates(prefix, ext, Limit(|prefix|))
    {
      CutToLeading(prefix, ext, k);
    }
    assert Candidates(prefix, ext, 999) == Candidates(prefix, ext, Limit(|prefix|));
  }

  lemma {:induction false} SubsetSize<T>(a: set<T>, b: set<T>)
    requires a <= b
    ensures |a| <= |b|
  {
    assert b == a + (b - a);
  }

  /** With fewer than nine names in use generation never fails. */
  lemma FewNamesSuffice(name: Text, taken: set<Bytes>)
    requires |taken| < 9
    ensures ShortName(name, taken).Some?
  {
    var p := PartsOf(name);
    FailsIffExhausted(name, taken);
    if ShortName(name, taken).None? {
      CandidateCount(p.Prefix(), p.ext, Limit(|p.Prefix()|));
      SubsetSize(Candidates(p.Prefix(), p.ext, Limit(|p.Prefix()|)), taken);
      assert false;
    }
  }

  /** A field that a directory scan takes for a live entry. */
  predicate LiveShort(s: Bytes) {
    |s| == 11 && s[0] != 0 && s[0] != 0xE5
  }

  /** The chosen field is new among those in use and never reads as deleted or as
      the end of the directory. */
  lemma ShortNameFresh(name: Text, taken: set<Bytes>)
    requires 0 !in name && ShortName(name, taken).Some?
    ensures LiveShort(ShortName(name, taken).value) && ShortName(name, taken).value !in taken
  {
    hide PartsOf, Parts.Direct, Parts.Prefix, Candidate, IsPrefix, LiveShort;
    var p := PartsOf(name);
    PrefixShape(name);
    if p.Fits() && p.Direct() !in taken {
      DirectLive(name);
    } else {
      FirstFreeSpec(p.Prefix(), p.ext, taken, 1);
      var k :| 1 <= k < 1000 && ShortName(name, taken).value == Candidate(p.Prefix(), p.ext, k);
      CandidateLive(p.Prefix(), p.ext, k);
    }
  }

  lemma DirectLive(name: Text)
    requires 0 !in name && PartsOf(name).Fits()
    ensures LiveShort(PartsOf(name).Direct())
  {
    hide AsciiUpper, LastDot, Parts.Direct;
    assert 0 !in Stem(name);
    var p := PartsOf(name);
    DirectAt(p);
    if p.base != [] { assert p.base[0] in p.base; }
  }

  lemma CandidateLive(prefix: Bytes, ext: Bytes, n: nat)
    requires IsPrefix(prefix) && 1 <= n < 1000
    ensures LiveShort(Candidate(prefix, ext, n))
  {
    hide Digits;
    assert Candidate(prefix, ext, n)[0] == prefix[0];
  }

  // ---- a directory's worth of names ----

  /** The fields of all names of one directory, in order. */
  function AssignShorts(names: seq<Text>, taken: set<Bytes>): (r: Option<seq<Bytes>>)
    ensures r.Some? ==> |r.value| == |names| && forall i :: 0 <= i < |names| ==> |r.value[i]| == 11
    decreases names
  {
    if names == [] then Some([])
    else
      var s := ShortName(names[0], taken);
      if s.None? then None
      else
        var rest := AssignShorts(names[1..], taken + {s.value});
        if rest.None? then None else Some([s.value] + rest.value)
  }

  /** The children of one directory get pairwise different fields. */
  lemma {:induction false} ShortsDistinct(names: seq<Text>, taken: set<Bytes>)
    requires AssignShorts(names, taken).Some?
    requires forall i :: 0 <= i < |names| ==> 0 !in names[i]
    ensures var s := AssignShorts(names, taken).value;
      && (forall i :: 0 <= i < |s| ==> s[i] !in taken && LiveShort(s[i]))
      && (forall i, j :: 0 <= i < j < |s| ==> s[i] != s[j])
    decreases |names|
  {
    if names != [] {
      var first := ShortName(names[0], taken).value;
      ShortNameFresh(names[0], taken);
      ShortsDistinct(names[1..], taken + {first});
      var s, rest := AssignShorts(names, taken).value, AssignShorts(names[1..], taken + {first}).value;
      assert forall i :: 0 < i < |s| ==> s[i] == rest[i - 1];
    }
  }

  /** A directory of at most nine entries never runs out of fields. */
  lemma {:induction false} SmallDirectory(names: seq<Text>, taken: set<Bytes>)
    requires |names| + |taken| <= 9
    ensures AssignShorts(names, taken).Some?
    decreases |names|
  {
    if names != [] {
      FewNamesSuffice(names[0], taken);
      SmallDirectory(names[1..], taken + {ShortName(names[0], taken).value});
    }
  }

  // ---- short_to_name ----

  /** Python's str.isspace() on the Latin-1 range. */
  predicate IsSpace(c: Byte) {
    9 <= c <= 13 || 28 <= c <= 32 || c == 0x85 || c == 0xA0
  }

  function RStrip(t: Bytes): Bytes {
    if t != [] && IsSpace(t[|t| - 1]) then RStrip(t[..|t| - 1]) else t
  }

  function ShortToName(s: Bytes): Text
    requires |s| == 11
  {
    var base, ext := RStrip(s[..8]), RStrip(s[8..]);
    base + if ext != [] then [DOT] + ext else []
  }

  lemma {:induction false} RStripPadding(t: Bytes, n: nat)
    requires t == [] || !IsSpace(t[|t| - 1])
    ensures RStrip(t + seq(n, _ => SPACE)) == t
  {
    var u := t + seq(n, _ => SPACE);
    if n > 0 {
      assert u[..|u| - 1] == t + seq(n - 1, _ => SPACE);
      RStripPadding(t, n - 1);
    } else {
      assert u == t;
    }
  }

  lemma {:induction false} AsciiUpperAppend(x: Text, y: Text)
    ensures AsciiUpper(x + y) == AsciiUpper(x) + AsciiUpper(y)
    decreases |x|
  {
    if x == [] {
      assert x + y == y;
    } else {
      assert (x + y)[1..] == x[1..] + y;
      AsciiUpperAppend(x[1..], y);
    }
  }

  /** ASCII without lower-case letters. */
  predicate UpperCase(t: Text) { forall i :: 0 <= i < |t| ==> t[i] < 128 && !(97 <= t[i] <= 122) }

  predicate Stripped(t: Bytes) { t == [] || !IsSpace(t[|t| - 1]) }

  /** Padding with spaces is stripped again, with any white space before it. */
  lemma {:induction false} PadReads(t: Bytes, n: nat)
    requires |t| <= n
    ensures RStrip(Pad(t, n, SPACE)) == RStrip(t)
    decreases n
  {
    var u := Pad(t, n, SPACE);
    if |t| < n {
      assert u[..n - 1] == Pad(t, n - 1, SPACE);
      PadReads(t, n - 1);
    } else {
      assert u == t;
    }
  }

  lemma {:induction false} RStripShortens(t: Bytes)
    ensures |RStrip(t)| <= |t| && (|RStrip(t)| == |t| <==> Stripped(t)) && (Stripped(t) ==> RStrip(t) == t)
    decreases |t|
  {
    if !Stripped(t) { RStripShortens(t[..|t| - 1]); }
  }

  /** A name that fits the 8.3 form reads back without the white space at the end of its
      parts. It reads back as itself, and so goes without long-name records, exactly
      when it has no lower-case letter, no such white space, and no dot at its end. */
  lemma DirectNameReads(name: Text, taken: set<Bytes>)
    requires PartsOf(name).Fits() && PartsOf(name).Direct() !in taken
    ensures var p, read := PartsOf(name), ShortToName(ShortName(name, taken).value);
      && read == RStrip(p.base) + (if RStrip(p.ext) != [] then [DOT] + RStrip(p.ext) else [])
      && (name == read
          <==> UpperCase(name) && Stripped(p.base) && Stripped(p.ext) && (LastDot(name) >= 0 ==> p.ext != []))
      && (Stripped(p.base) && Stripped(p.ext) && (LastDot(name) >= 0 ==> p.ext != []) ==> read == AsciiUpper(name))
  {
    hide ShortToName, AsciiUpper, LastDot, Stripped, Pad, FirstFree, Candidate, UpperCase, PartsOf, Parts.Fits,
         Parts.Direct, RStrip;
    var p := PartsOf(name);
    FoldedParts(name);
    PartsLength(name);
    PaddedReads(p);
    AsciiUpperFixed(name);
    RStripShortens(p.base);
    RStripShortens(p.ext);
  }

  lemma PartsLength(name: Text)
    requires PartsOf(name).Fits()
    ensures var p := PartsOf(name); |name| == |p.base| + |p.ext| + if LastDot(name) >= 0 then 1 else 0
  {
    hide AsciiUpper, LastDot;
    if LastDot(name) < 0 { NoDot(name); }
  }

  lemma PaddedReads(p: Parts)
    requires p.Fits()
    ensures ShortToName(p.Direct()) == RStrip(p.base) + if RStrip(p.ext) != [] then [DOT] + RStrip(p.ext) else []
  {
    hide RStrip, Pad;
    var short := p.Direct();
    assert short[..8] == Pad(p.base, 8, SPACE);
    assert short[8..] == Pad(p.ext, 3, SPACE);
    PadReads(p.base, 8);
    PadReads(p.ext, 3);
  }

  lemma FoldJoined(x: Text, y: Text)
    ensures AsciiUpper(x + [46] + y) == AsciiUpper(x) + [DOT] + AsciiUpper(y)
  {
    var dot: Text := [46];
    assert dot[1..] == [];
    AsciiUpperAppend(x, dot);
    AsciiUpperAppend(x + dot, y);
  }

  lemma NameSplits(name: Text)
    requires LastDot(name) >= 0
    ensures name == Stem(name) + [46] + Extension(name)
  {}

  /** Folding a name folds its stem and its extension. */
  lemma {:induction false} FoldedParts(name: Text)
    ensures var p := PartsOf(name);
      && AsciiUpper(name) == p.base + (if LastDot(name) >= 0 then [DOT] + p.ext else [])
      && (LastDot(name) < 0 ==> p.ext == [])
  {
    hide AsciiUpper, LastDot, Stem, Extension;
    if LastDot(name) >= 0 {
      NameSplits(name);
      FoldJoined(Stem(name), Extension(name));
    } else {
      NoDot(name);
    }
  }

  lemma NoDot(name: Text)
    requires LastDot(name) < 0
    ensures Stem(name) == name && AsciiUpper(Extension(name)) == []
  {}

  /** Folding changes nothing exactly when there is nothing to fold. */
  lemma {:induction false} AsciiUpperFixed(t: Text)
    ensures AsciiUpper(t) == t <==> UpperCase(t)
    decreases |t|
  {
    if t != [] {
      var u := t[1..];
      AsciiUpperFixed(u);
      UpperCaseCons(t);
      hide UpperCase;
      assert AsciiUpper(t) == if t[0] < 128 then [Upper(t[0])] + AsciiUpper(u) else AsciiUpper(u);
      assert t == [t[0]] + u;
    }
  }

  lemma UpperCaseCons(t: Text)
    requires t != []
    ensures UpperCase(t) <==> t[0] < 128 && !(97 <= t[0] <= 122) && UpperCase(t[1..])
  {
    assert forall i :: 0 < i < |t| ==> t[i] == t[1..][i - 1];
  }

  // ---- names that fold to dots ----

  predicate Blank(t: Text) { forall i :: 0 <= i < |t| ==> t[i] == 32 }

  /** One or two dots, then nothing but spaces. */
  predicate DotStem(t: Text) {
    t != [] && t[0] == 46 && (Blank(t[1..]) || (|t| >= 2 && t[1] == 46 && Blank(t[2..])))
  }

  /** Names like "...", ".. ." or "..  ", whose 8.3 form is that of "." or "..". */
  predicate FoldsToDots(name: Text) {
    && LastDot(name) >= 0
    && |Stem(name)| <= 8 && DotStem(Stem(name)) && |Extension(name)| <= 3 && Blank(Extension(name))
  }

  /** A field of one or two dots and spaces. */
  predicate IsDots(s: Bytes) {
    |s| == 11 && s[0] == DOT && s[1] in {DOT, SPACE} && forall i :: 2 <= i < 11 ==> s[i] == SPACE
  }

  /** Folding that drops nothing folds every character in its place. */
  lemma {:induction false} AsciiUpperAt(t: Text)
    ensures |AsciiUpper(t)| == |t| <==> forall i :: 0 <= i < |t| ==> t[i] < 128
    ensures |AsciiUpper(t)| == |t| ==> forall i :: 0 <= i < |t| ==> AsciiUpper(t)[i] == Upper(t[i])
    decreases |t|
  {
    if t != [] {
      AsciiUpperAt(t[1..]);
      var u, r := t[1..], AsciiUpper(t[1..]);
      assert AsciiUpper(t) == if t[0] < 128 then [Upper(t[0])] + r else r;
      assert forall i :: 0 < i < |t| ==> t[i] == u[i - 1];
      assert forall i :: 0 <= i < |u| ==> u[i] == t[i + 1];
    }
  }

  /** The direct form of a name is that of "." or ".." exactly for such names. */
  lemma FoldsToDotsIff(name: Text)
    ensures var p := PartsOf(name); p.Fits() && IsDots(p.Direct()) <==> FoldsToDots(name)
  {
    hide AsciiUpper, LastDot, IsDots, FoldsToDots;
    var p := PartsOf(name);
    if FoldsToDots(name) {
      DotsFold(name);
    }
    if p.Fits() && IsDots(p.Direct()) {
      FoldedDots(name);
    }
  }

  lemma DotsFold(name: Text)
    requires FoldsToDots(name)
    ensures PartsOf(name).Fits() && IsDots(PartsOf(name).Direct())
  {
    hide AsciiUpper, LastDot;
    var stem, ext := Stem(name), Extension(name);
    AsciiUpperAt(stem);
    AsciiUpperAt(ext);
    assert forall i :: 1 <= i < |stem| ==> stem[i] == stem[1..][i - 1];
    assert |stem| >= 2 ==> forall i :: 2 <= i < |stem| ==> stem[i] == stem[2..][i - 2];
    assert forall i :: 0 <= i < |stem| ==> stem[i] in {32, 46};
    assert forall i :: 2 <= i < |stem| ==> stem[i] == 32;
  }

  lemma FoldedDots(name: Text)
    requires PartsOf(name).Fits() && IsDots(PartsOf(name).Direct())
    ensures FoldsToDots(name)
  {
    hide AsciiUpper, LastDot, Parts.Direct;
    var p, stem, ext := PartsOf(name), Stem(name), Extension(name);
    AsciiUpperAt(stem);
    AsciiUpperAt(ext);
    DirectAt(p);
    assert |stem| > 0 && stem[0] == 46 by { assert p.Direct()[0] == DOT; }
    assert forall i :: 2 <= i < |stem| ==> stem[i] == 32;
    assert forall i :: 0 <= i < |ext| ==> ext[i] == 32;
    if |stem| >= 2 && stem[1] == 46 {
      assert Blank(stem[2..]);
    } else {
      assert |stem| >= 2 ==> stem[1] == 32;
      assert Blank(stem[1..]);
    }
  }

  lemma DirectAt(p: Parts)
    requires p.Fits()
    ensures |p.Direct()| == 11
    ensures forall i :: 0 <= i < 8 ==> p.Direct()[i] == if i < |p.base| then p.base[i] else SPACE
    ensures forall i :: 0 <= i < 3 ==> p.Direct()[8 + i] == if i < |p.ext| then p.ext[i] else SPACE
  {}

  /** A numbered candidate is never one of dots. */
  lemma CandidateNotDots(prefix: Bytes, ext: Bytes, n: nat)
    requires 3 <= |prefix| <= 6 && 1 <= n < 1000
    ensures !IsDots(Candidate(prefix, ext, n))
  {
    hide Digits;
    assert Candidate(prefix, ext, n)[|prefix|] == TILDE;
  }

  lemma NameGetsDots(name: Text, taken: set<Bytes>)
    requires ShortName(name, taken).Some? && forall s :: s in taken ==> !IsDots(s)
    ensures IsDots(ShortName(name, taken).value) <==> FoldsToDots(name)
  {
    hide Candidate, IsDots, FoldsToDots, PartsOf, Parts.Direct;
    var p := PartsOf(name);
    FoldsToDotsIff(name);
    if !(p.Fits() && p.Direct() !in taken) {
      FirstFreeSpec(p.Prefix(), p.ext, taken, 1);
      var k :| 1 <= k < 1000 && ShortName(name, taken).value == Candidate(p.Prefix(), p.ext, k);
      CandidateNotDots(p.Prefix(), p.ext, k);
    }
  }

  /** Some name of a directory gets the field of "." or ".." exactly when some name
      folds to dots. */
  lemma {:induction false} DotsAmongShorts(names: seq<Text>, taken: set<Bytes>)
    requires AssignShorts(names, taken).Some? && forall s :: s in taken ==> !IsDots(s)
    ensures var shorts := AssignShorts(names, taken).value;
      (exists i :: 0 <= i < |shorts| && IsDots(shorts[i])) <==> exists i :: 0 <= i < |names| && FoldsToDots(names[i])
    decreases |names|
  {
    hide ShortName, IsDots, FoldsToDots;
    if names != [] {
      NameGetsDots(names[0], taken);
      var s := ShortName(names[0], taken).value;
      var shorts, rest := AssignShorts(names, taken).value, AssignShorts(names[1..], taken + {s}).value;
      assert shorts == [s] + rest && shorts[0] == s && shorts[1..] == rest;
      AnyDotsCons(shorts);
      AnyFoldsCons(names);
      if !FoldsToDots(names[0]) { DotsAmongShorts(names[1..], taken + {s}); }
    }
  }

  lemma AnyDotsCons(shorts: seq<Bytes>)
    requires shorts != []
    ensures (exists i :: 0 <= i < |shorts| && IsDots(shorts[i]))
            <==> IsDots(shorts[0]) || exists i :: 0 <= i < |shorts[1..]| && IsDots(shorts[1..][i])
  {
    hide IsDots;
    assert forall i :: 0 <= i < |shorts[1..]| ==> shorts[1..][i] == shorts[i + 1];
    assert forall i :: 0 < i < |shorts| ==> shorts[i] == shorts[1..][i - 1];
  }

  lemma AnyFoldsCons(names: seq<Text>)
    requires names != []
    ensures (exists i :: 0 <= i < |names| && FoldsToDots(names[i]))
            <==> FoldsToDots(names[0]) || exists i :: 0 <= i < |names[1..]| && FoldsToDots(names[1..][i])
  {
    hide FoldsToDots;
    assert forall i :: 0 <= i < |names[1..]| ==> names[1..][i] == names[i + 1];
    assert forall i :: 0 < i < |names| ==> names[i] == names[1..][i - 1];
  }
}
