/** Finding, joining and deduplicating driver paths. */
module FsDriver {
  import opened ByteStrings
  import opened Tokens

  const MOUNT_MAX_PATH := 256
  const BACKSLASH := '\\'

  // ---- the self directory ----

  /** The directory strip of `MountGetSelfDir`; None where it answers EFI_NOT_FOUND.
      A directory too long for the buffer leaves it empty. */
  method GetSelfDir(imagePath: Option<string>) returns (dir: Option<string>)
    ensures dir.None? <==> imagePath.None? || BACKSLASH !in imagePath.value
    ensures dir.Some? ==>
      var cs := Split(imagePath.value, BACKSLASH);
      && |cs| >= 2
      && var up := Join(cs[..|cs| - 1], BACKSLASH);
      dir.value == if |up| < MOUNT_MAX_PATH then up else ""
  {
    if imagePath.None? {
      return None;
    }
    var path := imagePath.value;
    var last := -1;
    for p := 0 to |path|
      invariant -1 <= last < p
      invariant last >= 0 ==> path[last] == BACKSLASH
      invariant forall i :: last < i < p ==> path[i] != BACKSLASH
    {
      if path[p] == BACKSLASH {
        last := p;
      }
    }
    if last < 0 {
      return None;
    }
    var up := path[..last];
    StripLast(path, last);
    return Some(if |up| < MOUNT_MAX_PATH then up else "");
  }

  /** Cutting at the last backslash drops the last component. */
  lemma StripLast(path: string, last: nat)
    requires last < |path| && path[last] == BACKSLASH && forall i :: last < i < |path| ==> path[i] != BACKSLASH
    ensures var cs := Split(path, BACKSLASH);
      |cs| >= 2 && Join(cs[..|cs| - 1], BACKSLASH) == path[..last]
  {
    var up, name := path[..last], path[last + 1..];
    assert path == up + [BACKSLASH] + name;
    SplitAppend(up, name, BACKSLASH);
    SplitPrefix(name, "", BACKSLASH);
    var cs := Split(path, BACKSLASH);
    assert cs[..|cs| - 1] == Split(up, BACKSLASH);
    JoinSplit(up, BACKSLASH);
  }

  function Cut(s: string): string { s[..Min(|s|, MOUNT_MAX_PATH - 1)] }

  /** A path below the self directory; at the volume root the path itself. */
  function FullPath(dir: string, relative: string): string {
    if dir == "" then relative else dir + [BACKSLASH] + relative
  }

  /** `MountJoinSelfPath`: both branches cut at the buffer. */
  function JoinSelfPath(dir: string, relative: string): string { Cut(FullPath(dir, relative)) }

  predicate Untruncated(dir: string, relative: string) { |FullPath(dir, relative)| < MOUNT_MAX_PATH }

  /** The joined path has the directory's components and then the file's, as far as 255
      characters reach. */
  lemma JoinedComponents(dir: string, relative: string)
    ensures Split(FullPath(dir, relative), '\\')
            == if dir == "" then Split(relative, '\\') else Split(dir, '\\') + Split(relative, '\\')
    ensures JoinSelfPath(dir, relative) == FullPath(dir, relative)[..Min(255, |FullPath(dir, relative)|)]
  {
    if dir != "" { SplitAppend(dir, relative, '\\'); }
  }

  // ---- the dedupe test ----

  /** The test of `MountDriverLoaded` on one image's path text. */
  predicate MatchesDriver(text: string, driver: string) {
    && |text| >= |driver| && text[|text| - |driver|..] == driver
    && (|text| == |driver| || text[|text| - |driver| - 1] == BACKSLASH)
  }

  predicate IsSuffix(xs: seq<string>, ys: seq<string>) { |xs| <= |ys| && ys[|ys| - |xs|..] == xs }

  /** The test accepts a path exactly when the driver's components end the path's. */
  lemma {:induction false} MatchIsSuffix(text: string, driver: string)
    ensures MatchesDriver(text, driver) <==> IsSuffix(Split(driver, BACKSLASH), Split(text, BACKSLASH))
  {
    var cs, ds := Split(text, BACKSLASH), Split(driver, BACKSLASH);
    JoinSplit(text, BACKSLASH);
    JoinSplit(driver, BACKSLASH);
    if MatchesDriver(text, driver) && |text| > |driver| {
      var up := text[..|text| - |driver| - 1];
      assert text == up + [BACKSLASH] + driver;
      SplitAppend(up, driver, BACKSLASH);
    }
    if IsSuffix(ds, cs) {
      if |cs| == |ds| {
        assert cs == ds;
      } else {
        var up := cs[..|cs| - |ds|];
        assert cs == up + ds;
        JoinAppend(up, ds, BACKSLASH);
      }
    }
  }

  /** Every path joined without truncation passes the test for its own driver. */
  lemma JoinedPathMatches(dir: string, driver: string)
    requires Untruncated(dir, driver)
    ensures MatchesDriver(JoinSelfPath(dir, driver), driver)
  {
    if dir == "" {
      assert Cut(driver) == driver;
    } else {
      var full := dir + [BACKSLASH] + driver;
      assert Cut(full) == full;
    }
  }

  /** No component before the last begins with the last. */
  predicate NameOnlyLast(cs: seq<string>)
    requires cs != []
  {
    forall i :: 0 <= i < |cs| - 1 ==> !(cs[|cs| - 1] <= cs[i])
  }

  /** Where no directory on the way begins with the driver's file name, a joined path
      passes the test for its own driver exactly when it was not truncated. */
  lemma {:induction false} JoinedMatchesIff(dir: string, driver: string)
    requires NameOnlyLast(Split(FullPath(dir, driver), BACKSLASH))
    ensures MatchesDriver(JoinSelfPath(dir, driver), driver) <==> Untruncated(dir, driver)
  {
    hide MatchesDriver, Split, Join;
    if Untruncated(dir, driver) {
      JoinedPathMatches(dir, driver);
    } else if MatchesDriver(JoinSelfPath(dir, driver), driver) {
      var full := FullPath(dir, driver);
      var ps, cs := Split(full[..MOUNT_MAX_PATH - 1], BACKSLASH), Split(full, BACKSLASH);
      MatchIsSuffix(JoinSelfPath(dir, driver), driver);
      SplitTake(full, MOUNT_MAX_PATH - 1, BACKSLASH);
      SameLast(dir, driver);
      if |ps| == |cs| {
        assert ps == cs;
        JoinSplit(full, BACKSLASH);
        JoinSplit(full[..MOUNT_MAX_PATH - 1], BACKSLASH);
      }
      assert false;
    }
  }

  lemma SameLast(dir: string, driver: string)
    ensures var cs, ds := Split(FullPath(dir, driver), BACKSLASH), Split(driver, BACKSLASH);
      cs[|cs| - 1] == ds[|ds| - 1]
  {
    if dir != "" { SplitAppend(dir, driver, BACKSLASH); }
  }

  /** A truncated one need not: a directory of 254 characters leaves no room. */
  lemma TruncatedPathLost(dir: string)
    requires |dir| == 254 && BACKSLASH !in dir
    ensures !MatchesDriver(JoinSelfPath(dir, "x.efi"), "x.efi")
  {
    var full := Cut(dir + [BACKSLASH] + "x.efi");
    assert |full| == 255 && full[254] == BACKSLASH;
    assert full[250..][4] == full[254];
  }

  /** A loaded image: the text of its path, if it has one, and whether it was started. */
  datatype Image = Image(path: Option<string>, started: bool)

  predicate IsImageOf(image: Image, driver: string) {
    image.path.Some? && IsSuffix(Split(driver, BACKSLASH), Split(image.path.value, BACKSLASH))
  }

  /** Some loaded image's path ends in the driver's components. */
  predicate Loaded(images: seq<Image>, driver: string) {
    exists i :: 0 <= i < |images| && IsImageOf(images[i], driver)
  }

  /** Such an image has been started, too. */
  predicate Running(images: seq<Image>, driver: string) {
    exists i :: 0 <= i < |images| && IsImageOf(images[i], driver) && images[i].started
  }

  /** `MountDriverLoaded` over the loaded images. */
  method DriverLoaded(images: seq<Image>, driver: string) returns (found: bool)
    ensures found <==> Loaded(images, driver)
  {
    hide Split, IsSuffix;
    found := false;
    var index := 0;
    while index < |images| && !found
      invariant 0 <= index <= |images| && (found <==> Loaded(images[..index], driver))
    {
      if images[index].path.Some? {
        var text := images[index].path.value;
        MatchIsSuffix(text, driver);
        if |text| >= |driver| && text[|text| - |driver|..] == driver
           && (|text| == |driver| || text[|text| - |driver| - 1] == BACKSLASH)
        {
          found := true;
          assert images[..index + 1][index] == images[index];
        }
      }
      assert images[..index + 1] == images[..index] + [images[index]];
      index := index + 1;
    }
    if found { LoadedPrefix(images, index, driver); }
    assert images[..|images|] == images;
  }

  lemma LoadedPrefix(images: seq<Image>, n: nat, driver: string)
    requires n <= |images| && Loaded(images[..n], driver)
    ensures Loaded(images, driver)
  {
    var i :| 0 <= i < n && IsImageOf(images[..n][i], driver);
    assert images[i] == images[..n][i];
  }

  // ---- loading ----

  datatype LoadStatus = Success | InvalidParameter | DriverMissing | SecureBoot

  datatype LoadImageStatus = Ok | SecurityViolation | OtherFailure

  /** What the firmware answers while one driver is loaded. */
  datatype LoadEnv = LoadEnv(selfDir: Option<string>, pathOk: bool, load: LoadImageStatus, started: bool)

  /** The firmware gets as far as loading the driver's image. */
  predicate ReachesLoad(env: LoadEnv) { env.selfDir.Some? && env.pathOk }

  /** `MountLoadDriver`, on the list of loaded images. EFI_SECURITY_VIOLATION comes with
      an image that is loaded but must not be started (UEFI Specification 2.10,
      section 7.4), and the code leaves it loaded. */
  function LoadDriver(images: seq<Image>, driver: Option<string>, env: LoadEnv): (seq<Image>, LoadStatus) {
    if driver.None? then (images, InvalidParameter)
    else if Loaded(images, driver.value) then (images, Success)
    else if !ReachesLoad(env) then (images, DriverMissing)
    else
      var full := Some(JoinSelfPath(env.selfDir.value, driver.value));
      if env.load == SecurityViolation then (images + [Image(full, false)], SecureBoot)
      else if env.load != Ok || !env.started then (images, DriverMissing)
      else (images + [Image(full, true)], Success)
  }

  /** What a request answers and leaves: success without a further image for a loaded
      driver, an unstarted one where Secure Boot objects, a started one on success, and
      no image otherwise; the image carries the joined path. */
  lemma LoadAnswers(images: seq<Image>, driver: Option<string>, env: LoadEnv)
    ensures var (after, status) := LoadDriver(images, driver, env);
      && (status == InvalidParameter <==> driver == None)
      && (driver.Some? ==>
            && var loaded, tried := Loaded(images, driver.value), env.selfDir.Some? && env.pathOk;
            && (status == Success <==> loaded || (tried && env.load == Ok && env.started))
            && (status == SecureBoot <==> !loaded && tried && env.load == SecurityViolation)
            && (status != Success && status != SecureBoot ==> status == DriverMissing)
            && (!loaded && status in {Success, SecureBoot} ==>
                  after == images + [Image(Some(JoinSelfPath(env.selfDir.value, driver.value)), status == Success)]))
      && (driver == None || Loaded(images, driver.value) || status == DriverMissing ==> after == images)
  {
    hide Loaded, JoinSelfPath;
  }

  class Firmware {
    var images: seq<Image>

    constructor (images: seq<Image>)
      ensures this.images == images
    {
      this.images := images;
    }

    method LoadDriverFile(driver: Option<string>, env: LoadEnv) returns (status: LoadStatus)
      modifies this
      ensures (images, status) == LoadDriver(old(images), driver, env)
    {
      hide Loaded, JoinSelfPath;
      if driver.None? {
        return InvalidParameter;
      }
      var already := DriverLoaded(images, driver.value);
      if already {
        return Success;
      }
      if env.selfDir.None? || !env.pathOk {
        return DriverMissing;
      }
      var full := JoinSelfPath(env.selfDir.value, driver.value);
      if env.load == OtherFailure {
        return DriverMissing;
      }
      var was := images;
      images := images + [Image(Some(full), false)];
      if env.load == SecurityViolation {
        return SecureBoot;
      }
      if !env.started {
        images := was;
        return DriverMissing;
      }
      images := was + [Image(Some(full), true)];
      return Success;
    }
  }

  /** An image recorded under an untruncated path counts as loaded, and as running
      once started. */
  lemma NewImageFound(images: seq<Image>, dir: string, driver: string, started: bool)
    requires Untruncated(dir, driver)
    ensures var after := images + [Image(Some(JoinSelfPath(dir, driver)), started)];
      && Loaded(after, driver)
      && (Running(after, driver) <==> started || Running(images, driver))
  {
    hide MatchesDriver, JoinSelfPath, IsSuffix, Split, Untruncated;
    var full := JoinSelfPath(dir, driver);
    var after := images + [Image(Some(full), started)];
    JoinedPathMatches(dir, driver);
    MatchIsSuffix(full, driver);
    assert IsImageOf(after[|images|], driver);
    if Running(images, driver) {
      var i :| 0 <= i < |images| && IsImageOf(images[i], driver) && images[i].started;
      assert after[i] == images[i];
    }
    if i :| 0 <= i < |after| && IsImageOf(after[i], driver) && after[i].started {
      assert i < |images| ==> images[i] == after[i];
    }
  }

  /** Loading is idempotent: once it has succeeded, with an untruncated path, asking
      again succeeds and loads nothing. */
  lemma LoadedOnce(images: seq<Image>, driver: string, env: LoadEnv, again: LoadEnv)
    requires LoadDriver(images, Some(driver), env).1 == Success
    requires env.selfDir.Some? ==> Untruncated(env.selfDir.value, driver)
    ensures var once := LoadDriver(images, Some(driver), env).0;
      Loaded(once, driver) && LoadDriver(once, Some(driver), again) == (once, Success)
  {
    hide Loaded, JoinSelfPath, Untruncated;
    if !Loaded(images, driver) {
      NewImageFound(images, env.selfDir.value, driver, true);
    }
  }

  /** No image of the driver lies there without having been started. */
  predicate Honest(images: seq<Image>, driver: string) { Loaded(images, driver) ==> Running(images, driver) }

  /** The request gets its driver loaded and started. */
  predicate Starts(images: seq<Image>, driver: string, env: LoadEnv) {
    !Loaded(images, driver) && ReachesLoad(env) && env.load == Ok && env.started
  }

  lemma RunningIsLoaded(images: seq<Image>, driver: string)
    ensures Running(images, driver) ==> Loaded(images, driver)
  {}

  /** Success does not always mean that the driver runs. It does not exactly where an
      unstarted image of the driver was lying there already, or where the driver is
      started under a path cut so short that it is no path of the driver. */
  lemma FalseSuccessIff(images: seq<Image>, driver: string, env: LoadEnv)
    ensures var (after, status) := LoadDriver(images, Some(driver), env);
      status == Success && !Running(after, driver)
      <==> || !Honest(images, driver)
           || (Starts(images, driver, env) && !MatchesDriver(JoinSelfPath(env.selfDir.value, driver), driver))
  {
    hide Loaded, Running, JoinSelfPath, MatchesDriver;
    RunningIsLoaded(images, driver);
    if Starts(images, driver, env) {
      StartedImage(images, JoinSelfPath(env.selfDir.value, driver), driver);
    }
  }

  lemma StartedImage(images: seq<Image>, path: string, driver: string)
    requires !Running(images, driver)
    ensures Running(images + [Image(Some(path), true)], driver) <==> MatchesDriver(path, driver)
  {
    hide MatchesDriver, IsSuffix, Split;
    var after := images + [Image(Some(path), true)];
    MatchIsSuffix(path, driver);
    assert forall i :: 0 <= i < |images| ==> after[i] == images[i];
    if MatchesDriver(path, driver) { assert IsImageOf(after[|images|], driver); }
  }

  /** Where paths are not truncated, success is false exactly where an unstarted image
      of the driver was lying there before. */
  lemma FalseSuccess(images: seq<Image>, driver: string, env: LoadEnv)
    requires env.selfDir.Some? ==> Untruncated(env.selfDir.value, driver)
    ensures var (after, status) := LoadDriver(images, Some(driver), env);
      status == Success && !Running(after, driver) <==> !Honest(images, driver)
  {
    hide Loaded, Running, JoinSelfPath, MatchesDriver, Untruncated, LoadDriver, Honest;
    FalseSuccessIff(images, driver, env);
    if env.selfDir.Some? { JoinedPathMatches(env.selfDir.value, driver); }
  }

  /** A request leaves an unstarted image of its driver where there was none exactly
      when Secure Boot refuses it. */
  lemma RefusalIff(images: seq<Image>, driver: string, env: LoadEnv)
    requires Honest(images, driver) && (env.selfDir.Some? ==> Untruncated(env.selfDir.value, driver))
    ensures var (after, status) := LoadDriver(images, Some(driver), env);
      && (!Honest(after, driver) <==> status == SecureBoot)
      && (status == SecureBoot <==> !Loaded(images, driver) && ReachesLoad(env) && env.load == SecurityViolation)
  {
    hide Loaded, Running, JoinSelfPath, Untruncated;
    RunningIsLoaded(images, driver);
    if env.selfDir.Some? {
      NewImageFound(images, env.selfDir.value, driver, true);
      NewImageFound(images, env.selfDir.value, driver, false);
    }
  }

  /** Of two requests in a row that find no unstarted image of the driver, the second
      answers Success with nothing started exactly when the first was refused. */
  lemma RefusedThenReported(images: seq<Image>, driver: string, first: LoadEnv, second: LoadEnv)
    requires Honest(images, driver)
    requires first.selfDir.Some? ==> Untruncated(first.selfDir.value, driver)
    requires second.selfDir.Some? ==> Untruncated(second.selfDir.value, driver)
    ensures var (once, refused) := LoadDriver(images, Some(driver), first);
      var (twice, status) := LoadDriver(once, Some(driver), second);
      status == Success && !Running(twice, driver) <==> refused == SecureBoot
  {
    hide Honest, Untruncated, Running, LoadDriver;
    RefusalIff(images, driver, first);
    FalseSuccess(LoadDriver(images, Some(driver), first).0, driver, second);
  }

  /** A refused driver, asked for again on a platform that would now start it, is
      reported as a success and never started. */
  lemma RefusedForGood(driver: string)
    requires |driver| < MOUNT_MAX_PATH
    ensures var refuse, allow := LoadEnv(Some(""), true, SecurityViolation, true), LoadEnv(Some(""), true, Ok, true);
      var once := LoadDriver([], Some(driver), refuse);
      once.1 == SecureBoot && LoadDriver(once.0, Some(driver), allow) == (once.0, Success) && !Running(once.0, driver)
  {
    hide JoinSelfPath, IsImageOf;
    NewImageFound([], "", driver, false);
  }

  /** The images after a run of load requests from one self directory. */
  function LoadAll(images: seq<Image>, drivers: seq<string>, envs: seq<LoadEnv>): seq<Image>
    requires |drivers| == |envs|
    decreases |drivers|
  {
    if drivers == [] then images
    else LoadAll(LoadDriver(images, Some(drivers[0]), envs[0]).0, drivers[1..], envs[1..])
  }

  /** No request makes an image go away. */
  lemma {:induction false} LoadAllGrows(images: seq<Image>, drivers: seq<string>, envs: seq<LoadEnv>)
    requires |drivers| == |envs|
    ensures images <= LoadAll(images, drivers, envs)
    decreases |drivers|
  {
    hide Loaded, JoinSelfPath;
    if drivers != [] {
      LoadAllGrows(LoadDriver(images, Some(drivers[0]), envs[0]).0, drivers[1..], envs[1..]);
    }
  }

  lemma LoadedGrows(images: seq<Image>, more: seq<Image>, driver: string)
    requires Loaded(images, driver) && images <= more
    ensures Loaded(more, driver)
  {
    var i :| 0 <= i < |images| && IsImageOf(images[i], driver);
    assert more[i] == images[i];
  }

  lemma RefusedIsLoaded(images: seq<Image>, driver: string, env: LoadEnv)
    requires env.selfDir.Some? ==> Untruncated(env.selfDir.value, driver)
    requires LoadDriver(images, Some(driver), env).1 == SecureBoot
    ensures var once := LoadDriver(images, Some(driver), env).0; Loaded(once, driver) && !Running(once, driver)
  {
    hide Loaded, Running, JoinSelfPath, Untruncated;
    RunningIsLoaded(images, driver);
    NewImageFound(images, env.selfDir.value, driver, false);
  }

  /** Once an untruncated request was refused, the driver is reported as a success
      after any run of further requests, and nothing is loaded for it. */
  lemma ReportedEverAfter(images: seq<Image>, driver: string, env: LoadEnv, drivers: seq<string>, envs: seq<LoadEnv>,
                          later: LoadEnv)
    requires |drivers| == |envs| && (env.selfDir.Some? ==> Untruncated(env.selfDir.value, driver))
    requires LoadDriver(images, Some(driver), env).1 == SecureBoot
    ensures var run := LoadAll(LoadDriver(images, Some(driver), env).0, drivers, envs);
      LoadDriver(run, Some(driver), later) == (run, Success)
  {
    hide Loaded, Running, JoinSelfPath, Untruncated, LoadAll;
    var once := LoadDriver(images, Some(driver), env).0;
    RefusedIsLoaded(images, driver, env);
    LoadAllGrows(once, drivers, envs);
    LoadedGrows(once, LoadAll(once, drivers, envs), driver);
  }

  /** However often the refused driver itself is asked for again, it is never started. */
  lemma {:induction false} NeverStarted(images: seq<Image>, driver: string, drivers: seq<string>, envs: seq<LoadEnv>)
    requires |drivers| == |envs| && forall i :: 0 <= i < |drivers| ==> drivers[i] == driver
    requires Loaded(images, driver) && !Running(images, driver)
    ensures LoadAll(images, drivers, envs) == images
    decreases |drivers|
  {
    hide Loaded, Running;
    if drivers != [] { NeverStarted(images, driver, drivers[1..], envs[1..]); }
  }

  function Paths(images: seq<Image>): (r: seq<Option<string>>)
    ensures |r| == |images| && forall i :: 0 <= i < |r| ==> r[i] == images[i].path
  {
    seq(|images|, i requires 0 <= i < |images| => images[i].path)
  }

  /** Over any run of load requests from one directory, no path is loaded twice. */
  lemma {:induction false} NeverLoadedTwice(images: seq<Image>, drivers: seq<string>, envs: seq<LoadEnv>,
                                            dir: string, driver: string)
    requires |drivers| == |envs|
    requires forall i :: 0 <= i < |envs| && envs[i].selfDir.Some? ==> envs[i].selfDir.value == dir
    requires forall i :: 0 <= i < |drivers| ==> Untruncated(dir, drivers[i])
    requires Untruncated(dir, driver) && multiset(Paths(images))[Some(JoinSelfPath(dir, driver))] <= 1
    ensures multiset(Paths(LoadAll(images, drivers, envs)))[Some(JoinSelfPath(dir, driver))] <= 1
    decreases |drivers|
  {
    hide Loaded, MatchesDriver, JoinSelfPath, Untruncated, Paths;
    if drivers != [] {
      OneLoad(images, drivers[0], envs[0], dir, driver);
      NeverLoadedTwice(LoadDriver(images, Some(drivers[0]), envs[0]).0, drivers[1..], envs[1..], dir, driver);
    }
  }

  lemma OneLoad(images: seq<Image>, asked: string, env: LoadEnv, dir: string, driver: string)
    requires env.selfDir.Some? ==> env.selfDir.value == dir
    requires Untruncated(dir, asked) && Untruncated(dir, driver)
    requires multiset(Paths(images))[Some(JoinSelfPath(dir, driver))] <= 1
    ensures multiset(Paths(LoadDriver(images, Some(asked), env).0))[Some(JoinSelfPath(dir, driver))] <= 1
  {
    hide MatchesDriver, JoinSelfPath, Untruncated, Loaded;
    var full, mine := Some(JoinSelfPath(dir, driver)), Some(JoinSelfPath(dir, asked));
    var next := LoadDriver(images, Some(asked), env).0;
    if full in Paths(images) { RecordedIsLoaded(images, dir, driver); }
    if next != images {
      assert Paths(next) == Paths(images) + [mine];
      if mine == full {
        SamePathSameDriver(dir, driver, asked);
      }
    }
  }

  lemma RecordedIsLoaded(images: seq<Image>, dir: string, driver: string)
    requires Untruncated(dir, driver) && Some(JoinSelfPath(dir, driver)) in Paths(images)
    ensures Loaded(images, driver)
  {
    hide MatchesDriver, JoinSelfPath, Untruncated, Split, IsSuffix;
    var full := JoinSelfPath(dir, driver);
    var i :| 0 <= i < |images| && images[i].path == Some(full);
    JoinedPathMatches(dir, driver);
    MatchIsSuffix(full, driver);
    assert IsImageOf(images[i], driver);
  }

  lemma SamePathSameDriver(dir: string, a: string, b: string)
    requires Untruncated(dir, a) && Untruncated(dir, b) && JoinSelfPath(dir, a) == JoinSelfPath(dir, b)
    ensures a == b
  {
    if dir == "" {
      assert Cut(a) == a && Cut(b) == b;
    } else {
      var x, y := dir + [BACKSLASH] + a, dir + [BACKSLASH] + b;
      assert Cut(x) == x && Cut(y) == y;
      assert a == x[|dir| + 1..] && b == y[|dir| + 1..];
    }
  }
}
