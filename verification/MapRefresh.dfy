/** `MapRefreshShell` over the Shell's mapping table. */
module MapRefresh {
  import opened ByteStrings
  import opened ShellMap
  import opened Tokens

  /** One row of the table: a name for a device path. */
  datatype Mapping = Mapping(name: string, path: nat)

  function Upper(c: char): char { if 'a' <= c <= 'z' then c - 32 as char else c }

  /** Names are looked up without regard to case. */
  function Fold(s: string): (r: string)
    ensures |r| == |s| && forall i :: 0 <= i < |s| ==> r[i] == Upper(s[i])
  {
    seq(|s|, i requires 0 <= i < |s| => Upper(s[i]))
  }

  predicate InUse(table: seq<Mapping>, name: string) {
    exists i :: 0 <= i < |table| && Fold(table[i].name) == Fold(name)
  }

  function NamesOf(table: seq<Mapping>, path: nat): seq<string> {
    if table == [] then []
    else (if table[0].path == path then [table[0].name] else []) + NamesOf(table[1..], path)
  }

  /** `GetMapFromDevicePath`: all names of a path, ';'-separated. */
  function MapFromPath(table: seq<Mapping>, path: nat): Option<string> {
    if NamesOf(table, path) == [] then None else Some(Join(NamesOf(table, path), ';'))
  }

  // ---- fs names ----

  function Digits(n: nat): string {
    if n < 10 then ['0' + n as char] else Digits(n / 10) + ['0' + (n % 10) as char]
  }

  function Value(s: string): int {
    if s == "" then 0 else 10 * Value(s[..|s| - 1]) + (s[|s| - 1] as int - '0' as int)
  }

  lemma {:induction false} DigitsRead(n: nat)
    ensures Value(Digits(n)) == n && forall i :: 0 <= i < |Digits(n)| ==> '0' <= Digits(n)[i] <= '9'
    decreases n
  {
    var s := Digits(n);
    if n < 10 {
      assert s[..|s| - 1] == "";
    } else {
      DigitsRead(n / 10);
      assert s[..|s| - 1] == Digits(n / 10);
    }
  }

  function FsName(n: nat): string { "fs" + Digits(n) + ":" }

  /** Different numbers make names that differ even without regard to case. */
  lemma FsNamesDiffer(n: nat, m: nat)
    requires Fold(FsName(n)) == Fold(FsName(m))
    ensures n == m
  {
    DigitsRead(n);
    DigitsRead(m);
    var a, b := FsName(n), FsName(m);
    assert |a| == |Fold(a)| == |Fold(b)| == |b|;
    forall i | 0 <= i < |Digits(n)|
      ensures Digits(n)[i] == Digits(m)[i]
    {
      assert Upper(a[i + 2]) == Fold(a)[i + 2] == Fold(b)[i + 2] == Upper(b[i + 2]);
    }
    assert Digits(n) == Digits(m);
  }

  lemma FsNameShape(n: nat)
    ensures FsLike(FsName(n)) && ';' !in FsName(n)
  {
    DigitsRead(n);
  }

  /** The text of a name with number `n`: "fs", the number in decimal without leading
      zeros, and a colon. */
  ghost predicate IsFsName(s: string, n: nat) {
    && |s| >= 4 && s[0] == 'f' && s[1] == 's' && s[|s| - 1] == ':'
    && var d := s[2..|s| - 1];
    && (forall i :: 0 <= i < |d| ==> '0' <= d[i] <= '9') && (|d| > 1 ==> d[0] != '0') && Value(d) == n
  }

  /** `FsName(n)` is that text, and no other is. */
  lemma FsNameIs(n: nat, s: string)
    ensures IsFsName(s, n) <==> s == FsName(n)
  {
    hide Value, Digits;
    DigitsRead(n);
    NoLeadingZero(n);
    var t := FsName(n);
    assert t[2..|t| - 1] == Digits(n);
    if IsFsName(s, n) {
      DigitsOnly(s[2..|s| - 1]);
      assert s == ['f', 's'] + s[2..|s| - 1] + [':'];
    }
  }

  lemma {:induction false} NoLeadingZero(n: nat)
    ensures |Digits(n)| >= 1 && (|Digits(n)| > 1 ==> Digits(n)[0] != '0') && (n > 0 ==> Digits(n)[0] != '0')
    decreases n
  {
    if n >= 10 { NoLeadingZero(n / 10); }
  }

  /** A decimal without leading zeros is the one its value has. */
  lemma {:induction false} DigitsOnly(d: string)
    requires d != "" && (forall i :: 0 <= i < |d| ==> '0' <= d[i] <= '9') && (|d| > 1 ==> d[0] != '0')
    ensures Value(d) >= 0 && (d[0] != '0' ==> Value(d) > 0) && d == Digits(Value(d))
    decreases |d|
  {
    var init, last := d[..|d| - 1], d[|d| - 1];
    assert d == init + [last];
    if |d| == 1 {
      assert Value("") == 0 && init == "";
    } else {
      DigitsOnly(init);
      assert Value(d) / 10 == Value(init) && Value(d) % 10 == last as int - '0' as int;
    }
  }

  /** The first two names, and one of two digits. */
  lemma FirstNames()
    ensures FsName(0) == "fs0:" && FsName(1) == "fs1:" && FsName(12) == "fs12:"
  {
    assert Digits(12) == Digits(1) + ['2'];
  }

  /** Two names are the same to the Shell if they differ at most in the case of ASCII
      letters. */
  lemma SameNameIff(a: string, b: string)
    ensures Fold(a) == Fold(b) <==> |a| == |b| && forall i :: 0 <= i < |a| ==> SameLetter(a[i], b[i])
  {
    if Fold(a) == Fold(b) {
      forall i | 0 <= i < |a|
        ensures |a| == |b| && SameLetter(a[i], b[i])
      {
        assert |Fold(a)| == |Fold(b)| && Upper(a[i]) == Fold(a)[i] == Fold(b)[i] == Upper(b[i]);
      }
    }
  }

  predicate SameLetter(x: char, y: char) {
    || x == y
    || ('a' <= x <= 'z' && x as int == y as int + 32)
    || ('a' <= y <= 'z' && y as int == x as int + 32)
  }

  // ---- the first free index ----

  function Folded(table: seq<Mapping>): set<string> {
    set i | 0 <= i < |table| :: Fold(table[i].name)
  }

  lemma {:induction false} FoldedSize(table: seq<Mapping>)
    ensures |Folded(table)| <= |table|
    decreases |table|
  {
    if table == [] {
      assert Folded(table) == {};
    } else {
      var n := |table| - 1;
      FoldedSize(table[..n]);
      assert Folded(table) == Folded(table[..n]) + {Fold(table[n].name)};
    }
  }

  function FsNames(n: nat): set<string> {
    set k | 0 <= k < n :: Fold(FsName(k))
  }

  lemma {:induction false} FsNamesSize(n: nat)
    ensures |FsNames(n)| == n
    decreases n
  {
    hide FsName, Fold;
    if n == 0 {
      assert FsNames(0) == {};
    } else {
      FsNamesSize(n - 1);
      var last := Fold(FsName(n - 1));
      if last in FsNames(n - 1) {
        var k :| 0 <= k < n - 1 && last == Fold(FsName(k));
        FsNamesDiffer(k, n - 1);
      }
      assert FsNames(n) == FsNames(n - 1) + {last};
    }
  }

  /** A table of so many rows cannot hold more fs names than that: the search for a
      free one ends. */
  lemma TakenBound(table: seq<Mapping>, n: nat)
    requires forall k :: 0 <= k < n ==> InUse(table, FsName(k))
    ensures n <= |table|
  {
    forall s | s in FsNames(n)
      ensures s in Folded(table)
    {
      var k :| 0 <= k < n && s == Fold(FsName(k));
      assert InUse(table, FsName(k));
    }
    FsNamesSize(n);
    FoldedSize(table);
    var rest := Folded(table) - FsNames(n);
    assert Folded(table) == FsNames(n) + rest;
  }

  ghost predicate LeastFree(table: seq<Mapping>, n: nat) {
    !InUse(table, FsName(n)) && forall k :: 0 <= k < n ==> InUse(table, FsName(k))
  }

  function FirstFree(table: seq<Mapping>, n: nat): (fs: nat)
    requires forall k :: 0 <= k < n ==> InUse(table, FsName(k))
    ensures LeastFree(table, fs)
    decreases |table| + 1 - n
  {
    if InUse(table, FsName(n)) then
      TakenBound(table, n + 1);
      FirstFree(table, n + 1)
    else n
  }

  // ---- one pass over the handles ----

  predicate HasFs(table: seq<Mapping>, path: nat) {
    exists i :: 0 <= i < |table| && table[i].path == path && FsLike(table[i].name)
  }

  predicate CleanNames(table: seq<Mapping>) { forall i :: 0 <= i < |table| ==> ';' !in table[i].name }

  lemma {:induction false} NamesListed(table: seq<Mapping>, path: nat)
    requires CleanNames(table)
    ensures forall i :: 0 <= i < |NamesOf(table, path)| ==> ';' !in NamesOf(table, path)[i]
    ensures HasFs(table, path) <==> FromFs(NamesOf(table, path)) != []
    decreases |table|
  {
    if table != [] {
      NamesListed(table[1..], path);
      var head := if table[0].path == path then [table[0].name] else [];
      assert NamesOf(table, path) == head + NamesOf(table[1..], path);
      assert (head + NamesOf(table[1..], path))[|head|..] == NamesOf(table[1..], path);
      if i :| 0 <= i < |table[1..]| && table[1..][i].path == path && FsLike(table[1..][i].name) {
        assert table[i + 1].path == path;
      }
      if i :| 0 < i < |table| && table[i].path == path && FsLike(table[i].name) {
        assert table[1..][i - 1] == table[i];
      }
    }
  }

  /** The alias check of the refresh: does any name of the path look like an fs name? */
  lemma AliasCheck(table: seq<Mapping>, path: nat)
    requires CleanNames(table)
    ensures HasFs(table, path) <==>
      MapFromPath(table, path).Some? && Scan(MapFromPath(table, path).value, true).Some?
  {
    NamesListed(table, path);
    var names := NamesOf(table, path);
    if names != [] {
      SplitJoin(names, ';');
      ScanIsSplit(Join(names, ';'), true);
    }
  }

  /** The turn of one handle: a row under the least free index, when it has a device
      path without an fs name and the Shell takes it. */
  function Turn(table: seq<Mapping>, handle: Option<nat>, accepted: bool): seq<Mapping> {
    if handle.Some? && !HasFs(table, handle.value) && accepted
    then table + [Mapping(FsName(FirstFree(table, 0)), handle.value)]
    else table
  }

  /** One refresh: the handles take their turns in order. */
  function Refreshed(table: seq<Mapping>, handles: seq<Option<nat>>, accepts: seq<bool>): seq<Mapping>
    requires |handles| == |accepts|
    decreases |handles|
  {
    if handles == [] then table else Refreshed(Turn(table, handles[0], accepts[0]), handles[1..], accepts[1..])
  }

  class Shell {
    var table: seq<Mapping>

    constructor (table: seq<Mapping>)
      ensures this.table == table
    {
      this.table := table;
    }

    /** `SetMap` for a name not in use; `accepts` is the Shell's answer. */
    method SetMap(path: nat, name: string, accepts: bool) returns (ok: bool)
      modifies this
      ensures ok == accepts && table == if accepts then old(table) + [Mapping(name, path)] else old(table)
    {
      if accepts {
        table := table + [Mapping(name, path)];
      }
      return accepts;
    }

    /** The search loop `for (Fs = 0; ; Fs++)`. */
    method FirstFreeFs() returns (fs: nat)
      ensures fs == FirstFree(table, 0) && LeastFree(table, fs)
      ensures !InUse(table, FsName(fs)) && IsFsName(FsName(fs), fs)
      ensures forall k :: 0 <= k < fs ==> InUse(table, FsName(k)) && IsFsName(FsName(k), k)
    {
      fs := 0;
      while InUse(table, FsName(fs))
        invariant forall k :: 0 <= k < fs ==> InUse(table, FsName(k))
        invariant FirstFree(table, 0) == FirstFree(table, fs)
        decreases |table| + 1 - fs
      {
        TakenBound(table, fs + 1);
        fs := fs + 1;
      }
      forall k | 0 <= k <= fs
        ensures IsFsName(FsName(k), k)
      {
        FsNameIs(k, FsName(k));
      }
    }

    /** `MapRefreshShell`: `handles` are the file-system handles with their device
        paths, `accepts` the Shell's answers to SetMap. */
    method Refresh(handles: seq<Option<nat>>, accepts: seq<bool>) returns (added: nat)
      requires |handles| == |accepts| && CleanNames(table)
      modifies this
      ensures table == Refreshed(old(table), handles, accepts)
      ensures added == |table| - |old(table)|
    {
      hide HasFs, FsName, IsFsName, InUse, Scan, MapFromPath, FsLike;
      added := 0;
      assert handles[0..] == handles && accepts[0..] == accepts;
      for i := 0 to |handles|
        invariant CleanNames(table)
        invariant Refreshed(table, handles[i..], accepts[i..]) == Refreshed(old(table), handles, accepts)
        invariant |old(table)| <= |table| && added == |table| - |old(table)|
      {
        assert handles[i..][0] == handles[i] && accepts[i..][0] == accepts[i];
        assert handles[i..][1..] == handles[i + 1..] && accepts[i..][1..] == accepts[i + 1..];
        if handles[i].Some? {
          var path := handles[i].value;
          AliasCheck(table, path);
          var alias := FindFsAlias(MapFromPath(table, path));
          if alias.None? {
            var fs := FirstFreeFs();
            FsNameShape(fs);
            var ok := SetMap(path, FsName(fs), accepts[i]);
            if ok {
              added := added + 1;
            }
          }
        }
      }
      assert handles[|handles|..] == [];
    }
  }

  // ---- what a refresh means ----

  /** Names differ from row to row, without regard to case. */
  ghost predicate Distinct(table: seq<Mapping>) {
    forall i, j :: 0 <= i < j < |table| ==> Fold(table[i].name) != Fold(table[j].name)
  }

  /** What a refresh keeps: no existing row is touched; names stay one-to-one and
      free of separators; and every new row is the least free fs name, at its turn,
      for a handle that had none. */
  ghost predicate Grown(before: seq<Mapping>, after: seq<Mapping>, handles: seq<Option<nat>>) {
    && before <= after
    && (Distinct(before) ==> Distinct(after))
    && (CleanNames(before) ==> CleanNames(after))
    && forall i :: |before| <= i < |after| ==>
         Some(after[i].path) in handles && !HasFs(after[..i], after[i].path)
         && after[i].name == FsName(FirstFree(after[..i], 0))
  }

  lemma {:induction false} TurnGrows(table: seq<Mapping>, handle: Option<nat>, accepted: bool)
    ensures Grown(table, Turn(table, handle, accepted), [handle])
  {
    var after := Turn(table, handle, accepted);
    if after != table {
      var n := FirstFree(table, 0);
      FsNameShape(n);
      assert after[..|table|] == table;
      assert forall i :: 0 <= i < |table| ==> Fold(table[i].name) != Fold(FsName(n));
    }
  }

  lemma {:induction false} RefreshKeeps(table: seq<Mapping>, handles: seq<Option<nat>>, accepts: seq<bool>)
    requires |handles| == |accepts|
    ensures Grown(table, Refreshed(table, handles, accepts), handles)
    decreases |handles|
  {
    if handles == [] {
    } else {
      hide Turn, Grown;
      var mid := Turn(table, handles[0], accepts[0]);
      TurnGrows(table, handles[0], accepts[0]);
      RefreshKeeps(mid, handles[1..], accepts[1..]);
      GrownTwice(table, mid, Refreshed(table, handles, accepts), handles);
    }
  }

  lemma GrownTwice(a: seq<Mapping>, b: seq<Mapping>, c: seq<Mapping>, handles: seq<Option<nat>>)
    requires handles != [] && Grown(a, b, [handles[0]]) && Grown(b, c, handles[1..])
    ensures Grown(a, c, handles)
  {
    hide Distinct, CleanNames, HasFs, LeastFree, FirstFree, FsName;
    forall i | |a| <= i < |b|
      ensures c[i] == b[i] && c[..i] == b[..i]
    {
    }
  }

  /** The name of a new row, as text: the least number whose name is not in use. */
  lemma NewRow(table: seq<Mapping>, handles: seq<Option<nat>>, accepts: seq<bool>, i: nat)
    requires |handles| == |accepts| && |table| <= i < |Refreshed(table, handles, accepts)|
    ensures var after := Refreshed(table, handles, accepts);
      && Some(after[i].path) in handles && !InUse(after[..i], after[i].name)
      && exists n: nat :: IsFsName(after[i].name, n)
                    && forall m: nat, s: string :: m < n && IsFsName(s, m) ==> InUse(after[..i], s)
  {
    hide FsName, IsFsName, HasFs;
    RefreshKeeps(table, handles, accepts);
    var after := Refreshed(table, handles, accepts);
    var n := FirstFree(after[..i], 0);
    FsNameIs(n, FsName(n));
    forall m: nat, s: string | m < n && IsFsName(s, m)
      ensures InUse(after[..i], s)
    {
      FsNameIs(m, s);
    }
  }

  /** Where the Shell takes no name, a refresh changes nothing. */
  lemma {:induction false} RefusedRefresh(table: seq<Mapping>, handles: seq<Option<nat>>, accepts: seq<bool>)
    requires |handles| == |accepts| && forall i :: 0 <= i < |accepts| ==> !accepts[i]
    ensures Refreshed(table, handles, accepts) == table
    decreases |handles|
  {
    if handles != [] { RefusedRefresh(table, handles[1..], accepts[1..]); }
  }

  /** One willing handle and no rows: the volume becomes "fs0:". */
  lemma FirstVolume(path: nat)
    ensures Refreshed([], [Some(path)], [true]) == [Mapping("fs0:", path)]
  {
    hide FsName;
    FirstNames();
    assert !InUse([], FsName(0)) && FirstFree([], 0) == 0;
    var handles: seq<Option<nat>>, accepts := [Some(path)], [true];
    assert handles[1..] == [] && accepts[1..] == [];
    assert Turn([], Some(path), true) == [Mapping(FsName(0), path)];
  }

  /** Row `i` is the first of the path's with an fs name. */
  ghost predicate IsFirstFs(table: seq<Mapping>, path: nat, i: nat) {
    && i < |table| && table[i].path == path && FsLike(table[i].name)
    && forall j :: 0 <= j < i && table[j].path == path ==> !FsLike(table[j].name)
  }

  /** The name shown for a path is that of its first row in the table with an fs name. */
  lemma {:induction false} FirstFsRow(table: seq<Mapping>, path: nat) returns (i: nat)
    requires FromFs(NamesOf(table, path)) != []
    ensures IsFirstFs(table, path, i) && FromFs(NamesOf(table, path))[0] == table[i].name
    decreases |table|
  {
    hide FsLike, IsFirstFs, FromFs, NamesOf;
    NamesStep(table, path);
    NamesTail(table[0].name, NamesOf(table[1..], path));
    if table[0].path == path && FsLike(table[0].name) {
      i := 0;
      FirstOfAll(table, path);
    } else {
      var k := FirstFsRow(table[1..], path);
      i := k + 1;
      FirstLater(table, path, k);
    }
  }

  lemma NamesStep(table: seq<Mapping>, path: nat)
    ensures table == [] ==> FromFs(NamesOf(table, path)) == []
    ensures table != [] ==>
      var names := NamesOf(table[1..], path);
      NamesOf(table, path) == if table[0].path == path then [table[0].name] + names else names
  {
    hide FsLike;
    if table != [] { assert [] + NamesOf(table[1..], path) == NamesOf(table[1..], path); }
  }

  lemma FirstOfAll(table: seq<Mapping>, path: nat)
    requires table != [] && table[0].path == path && FsLike(table[0].name)
    ensures IsFirstFs(table, path, 0)
  {}

  lemma FirstLater(table: seq<Mapping>, path: nat, k: nat)
    requires table != [] && IsFirstFs(table[1..], path, k) && !(table[0].path == path && FsLike(table[0].name))
    ensures IsFirstFs(table, path, k + 1) && table[k + 1] == table[1..][k]
  {
    hide FsLike;
    assert forall j :: 0 < j < |table| ==> table[j] == table[1..][j - 1];
  }

  lemma NamesTail(name: string, names: seq<string>)
    ensures FromFs([name] + names) == if FsLike(name) then [name] + names else FromFs(names)
    ensures FsLike(name) ==> FromFs([name] + names)[0] == name
  {
    hide FsLike;
    assert ([name] + names)[1..] == names;
  }

  lemma HasFsPrefix(a: seq<Mapping>, b: seq<Mapping>, path: nat)
    requires a <= b && HasFs(a, path)
    ensures HasFs(b, path)
  {
    var i :| 0 <= i < |a| && a[i].path == path && FsLike(a[i].name);
    assert b[i].path == path;
  }

  /** With a willing Shell every handle with a device path ends up with an fs name. */
  lemma {:induction false} RefreshCovers(table: seq<Mapping>, handles: seq<Option<nat>>, accepts: seq<bool>)
    requires |handles| == |accepts| && forall i :: 0 <= i < |accepts| ==> accepts[i]
    ensures forall i :: 0 <= i < |handles| && handles[i].Some? ==>
      HasFs(Refreshed(table, handles, accepts), handles[i].value)
    decreases |handles|
  {
    if handles != [] {
      var mid, after := Turn(table, handles[0], accepts[0]), Refreshed(table, handles, accepts);
      RefreshCovers(mid, handles[1..], accepts[1..]);
      if handles[0].Some? {
        if !HasFs(table, handles[0].value) {
          FsNameShape(FirstFree(table, 0));
          assert mid[|table|].path == handles[0].value;
        }
        RefreshKeeps(mid, handles[1..], accepts[1..]);
        HasFsPrefix(mid, after, handles[0].value);
      }
    }
  }

  /** A refresh that finds every handle named assigns nothing. */
  lemma {:induction false} RefreshIdle(table: seq<Mapping>, handles: seq<Option<nat>>, accepts: seq<bool>)
    requires |handles| == |accepts|
    requires forall i :: 0 <= i < |handles| && handles[i].Some? ==> HasFs(table, handles[i].value)
    ensures Refreshed(table, handles, accepts) == table
    decreases |handles|
  {
    if handles != [] { RefreshIdle(table, handles[1..], accepts[1..]); }
  }

  /** The second of two refreshes over the same handles changes nothing, provided the
      Shell took every name of the first. */
  lemma SecondRefreshIdle(table: seq<Mapping>, handles: seq<Option<nat>>, accepts: seq<bool>, later: seq<bool>)
    requires |handles| == |accepts| == |later| && forall i :: 0 <= i < |accepts| ==> accepts[i]
    ensures var once := Refreshed(table, handles, accepts); Refreshed(once, handles, later) == once
  {
    RefreshCovers(table, handles, accepts);
    RefreshIdle(Refreshed(table, handles, accepts), handles, later);
  }

  // ---- the diff of the volume report ----

  /** `MapIsInSnapshot` */
  method IsInSnapshot(handle: nat, buffer: seq<nat>) returns (found: bool)
    ensures found <==> handle in buffer
  {
    for i := 0 to |buffer|
      invariant handle !in buffer[..i]
    {
      if buffer[i] == handle {
        return true;
      }
    }
    return false;
  }

  function NotIn(now: seq<nat>, snapshot: seq<nat>): seq<nat> {
    if now == [] then [] else (if now[0] in snapshot then [] else [now[0]]) + NotIn(now[1..], snapshot)
  }

  /** The handles `MapPrintNewVolumes` reports: those of now that the snapshot lacks. */
  method NewVolumes(now: seq<nat>, snapshot: seq<nat>) returns (volumes: seq<nat>)
    ensures volumes == NotIn(now, snapshot)
  {
    volumes := [];
    for i := 0 to |now|
      invariant volumes + NotIn(now[i..], snapshot) == NotIn(now, snapshot)
    {
      assert now[i..][1..] == now[i + 1..];
      var seen := IsInSnapshot(now[i], snapshot);
      if !seen {
        volumes := volumes + [now[i]];
      }
    }
  }

  /** They are the new ones, all of them, each as often as it is listed now. */
  lemma {:induction false} NotInSpec(now: seq<nat>, snapshot: seq<nat>, h: nat)
    ensures multiset(NotIn(now, snapshot))[h] == if h in snapshot then 0 else multiset(now)[h]
    decreases |now|
  {
    if now != [] {
      NotInSpec(now[1..], snapshot, h);
      assert now == [now[0]] + now[1..];
    }
  }
}
