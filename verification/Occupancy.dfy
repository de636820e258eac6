/** The reader's bookkeeping: lines printed, first claimant of every cluster, and
    the clusters claimed twice. */
module Occupancy {
  import opened ByteStrings
  import opened Results
  import opened ShortNames
  import opened LongNames
  import opened Geometry
  import opened Directory
  import opened Inspect

  type Conflict = (nat, Claim, Claim)

  datatype Occupancy = Occupancy(occup: map<nat, Claim>, conflicts: seq<Conflict>)

  const NOTHING := Occupancy(map[], [])

  function Mark(o: Occupancy, c: nat, what: Claim): Occupancy {
    if c in o.occup then o.(conflicts := o.conflicts + [(c, o.occup[c], what)])
    else o.(occup := o.occup[c := what])
  }

  function MarkAll(o: Occupancy, claims: seq<(nat, Claim)>): Occupancy
    decreases |claims|
  {
    if claims == [] then o else MarkAll(Mark(o, claims[0].0, claims[0].1), claims[1..])
  }

  lemma {:induction false} MarkAllAppend(o: Occupancy, xs: seq<(nat, Claim)>, ys: seq<(nat, Claim)>)
    ensures MarkAll(o, xs + ys) == MarkAll(MarkAll(o, xs), ys)
    decreases |xs|
  {
    if xs == [] {
      assert xs + ys == ys;
    } else {
      assert (xs + ys)[1..] == xs[1..] + ys;
      MarkAllAppend(Mark(o, xs[0].0, xs[0].1), xs[1..], ys);
    }
  }

  lemma MarkOneMore(o: Occupancy, claims: seq<(nat, Claim)>, c: nat, what: Claim)
    ensures MarkAll(o, claims + [(c, what)]) == Mark(MarkAll(o, claims), c, what)
  {
    MarkAllAppend(o, claims, [(c, what)]);
    assert [(c, what)][1..] == [];
  }

  // ---- the check is sound and complete ----

  ghost predicate Claimed(claims: seq<(nat, Claim)>, c: nat) {
    exists k :: 0 <= k < |claims| && claims[k].0 == c
  }

  /** Index of the first claim on a cluster. */
  ghost function FirstClaim(claims: seq<(nat, Claim)>, c: nat): (i: nat)
    requires Claimed(claims, c)
    ensures i < |claims| && claims[i].0 == c && forall k :: 0 <= k < i ==> claims[k].0 != c
  {
    if claims[0].0 == c then 0
    else
      assert Claimed(claims[1..], c) by {
        var k :| 0 <= k < |claims| && claims[k].0 == c;
        assert claims[1..][k - 1].0 == c;
      }
      1 + FirstClaim(claims[1..], c)
  }

  /** Each claimed cluster is filed under its first claimant. */
  ghost predicate Filed(occup: map<nat, Claim>, claims: seq<(nat, Claim)>) {
    forall c: nat ::
      && (c in occup <==> Claimed(claims, c))
      && (c in occup ==> occup[c] == claims[FirstClaim(claims, c)].1)
  }

  /** Claim `j` repeats an earlier one; `t` names the cluster and both claimants. */
  ghost predicate Repeats(claims: seq<(nat, Claim)>, j: nat, t: Conflict) {
    && j < |claims| && claims[j].0 == t.0 && claims[j].1 == t.2
    && Claimed(claims[..j], t.0)
    && t.1 == claims[..j][FirstClaim(claims[..j], t.0)].1
  }

  /** The conflicts are exactly the repeated claims. */
  ghost predicate Reported(conflicts: seq<Conflict>, claims: seq<(nat, Claim)>) {
    forall t :: t in conflicts <==> exists j: nat :: Repeats(claims, j, t)
  }

  lemma ClaimedAppend(claims: seq<(nat, Claim)>, c: nat, what: Claim, d: nat)
    ensures Claimed(claims + [(c, what)], d) <==> Claimed(claims, d) || d == c
    ensures Claimed(claims, d) ==> FirstClaim(claims + [(c, what)], d) == FirstClaim(claims, d)
    ensures !Claimed(claims, c) ==>
      Claimed(claims + [(c, what)], c) && FirstClaim(claims + [(c, what)], c) == |claims|
  {
    var more := claims + [(c, what)];
    assert forall k :: 0 <= k < |claims| ==> more[k] == claims[k];
    assert more[|claims|].0 == c;
    assert Claimed(more, c);
    if Claimed(claims, d) {
      var k :| 0 <= k < |claims| && claims[k].0 == d;
      assert more[k].0 == d;
    }
  }

  lemma FiledStep(o: Occupancy, claims: seq<(nat, Claim)>, c: nat, what: Claim)
    requires Filed(o.occup, claims)
    ensures Filed(Mark(o, c, what).occup, claims + [(c, what)])
  {
    hide Claimed;
    forall d: nat { ClaimedAppend(claims, c, what, d); }
  }

  lemma ReportedStep(o: Occupancy, claims: seq<(nat, Claim)>, c: nat, what: Claim)
    requires Filed(o.occup, claims) && Reported(o.conflicts, claims)
    ensures Reported(Mark(o, c, what).conflicts, claims + [(c, what)])
  {
    hide Claimed;
    var more, n := claims + [(c, what)], |claims|;
    assert more[..n] == claims;
    forall t, j: nat
      ensures Repeats(more, j, t)
              <==> Repeats(claims, j, t) || (j == n && c in o.occup && t == (c, o.occup[c], what))
    {
      if j < n { assert more[..j] == claims[..j]; }
    }
    if c in o.occup { assert Repeats(more, n, (c, o.occup[c], what)); }
  }

  /** The books say exactly what was claimed: who claimed each cluster first, and
      every later claim on it. */
  lemma {:induction false} MarkAllAccounts(claims: seq<(nat, Claim)>)
    ensures Filed(MarkAll(NOTHING, claims).occup, claims)
    ensures Reported(MarkAll(NOTHING, claims).conflicts, claims)
    decreases |claims|
  {
    if claims != [] {
      hide Filed, Reported, Mark;
      var init := claims[..|claims| - 1];
      var (c, what) := claims[|claims| - 1];
      MarkAllAccounts(init);
      assert claims == init + [(c, what)];
      MarkOneMore(NOTHING, init, c, what);
      FiledStep(MarkAll(NOTHING, init), init, c, what);
      ReportedStep(MarkAll(NOTHING, init), init, c, what);
    }
  }

  ghost predicate Distinct(claims: seq<(nat, Claim)>) {
    forall i, j :: 0 <= i < j < |claims| ==> claims[i].0 != claims[j].0
  }

  /** No conflict is reported exactly when no cluster is claimed twice. */
  lemma ConflictFreeIffDistinct(claims: seq<(nat, Claim)>)
    ensures MarkAll(NOTHING, claims).conflicts == [] <==> Distinct(claims)
  {
    MarkAllAccounts(claims);
    var conflicts := MarkAll(NOTHING, claims).conflicts;
    if conflicts != [] {
      assert conflicts[0] in conflicts;
      var j: nat :| Repeats(claims, j, conflicts[0]);
      var i := FirstClaim(claims[..j], claims[j].0);
      assert claims[i].0 == claims[j].0;
    }
    if !Distinct(claims) {
      var i, j :| 0 <= i < j < |claims| && claims[i].0 == claims[j].0;
      assert claims[..j][i].0 == claims[j].0;
      var t := (claims[j].0, claims[..j][FirstClaim(claims[..j], claims[j].0)].1, claims[j].1);
      assert Repeats(claims, j, t);
      assert t in conflicts;
    }
  }

  // ---- the walk that keeps the books ----

  datatype Summary = Summary(lines: seq<Line>, books: Occupancy)

  function Prepend(done: seq<nat>, r: Result<seq<nat>>): Result<seq<nat>> {
    if r.Ok? then Ok(done + r.value) else r
  }

  function Prefixed(done: Report, r: Result<Report>): Result<Report> {
    if r.Ok? then Ok(Join(done, r.value)) else r
  }

  lemma JoinAssociates(a: Report, b: Report, r: Result<Report>)
    ensures r.Ok? ==> Prefixed(a, Ok(Join(b, r.value))) == Prefixed(Join(a, b), r)
  {
    if r.Ok? {
      assert a.lines + (b.lines + r.value.lines) == a.lines + b.lines + r.value.lines;
      assert a.walks + (b.walks + r.value.walks) == a.walks + b.walks + r.value.walks;
    }
  }

  /** The books after two reports, one after the other. */
  lemma MarkJoin(o: Occupancy, a: Report, b: Report)
    ensures MarkAll(o, Flat(Join(a, b).walks)) == MarkAll(MarkAll(o, Flat(a.walks)), Flat(b.walks))
  {
    hide MarkAll, Flat;
    FlatAppend(a.walks, b.walks);
    MarkAllAppend(o, Flat(a.walks), Flat(b.walks));
  }

  lemma PrefixedNone(r: Result<Report>)
    ensures Prefixed(Report([], []), r) == r
  {
    if r.Ok? { assert [] + r.value.lines == r.value.lines && [] + r.value.walks == r.value.walks; }
  }

  lemma JoinNone(a: Report)
    ensures Join(a, Report([], [])) == a
  {
    assert a.lines + [] == a.lines && a.walks + [] == a.walks;
  }

  lemma MarkNone(o: Occupancy)
    ensures MarkAll(o, Flat([])) == o
  {}

  lemma PrependNil(r: Result<seq<nat>>)
    ensures Prepend([], r) == r
  {
    if r.Ok? { assert [] + r.value == r.value; }
  }

  lemma PrependCons(done: seq<nat>, c: nat, r: Result<seq<nat>>)
    requires r.Ok?
    ensures Prepend(done, Ok([c] + r.value)) == Prepend(done + [c], r)
  {
    assert done + ([c] + r.value) == done + [c] + r.value;
  }

  /** The chain loop of `walk_dir`. */
  method ReadDirLoop(img: Bytes, g: Geo, c0: nat, visited: set<nat>, fuel0: nat)
    returns (r: Result<(seq<nat>, seq<Entry>)>)
    ensures r == ReadDir(img, g, c0, visited, [], [], [], fuel0)
  {
    hide ScanCluster, ReadClus;
    var entries, pending: seq<Bytes>, chain: seq<nat> := [], [], [];
    var c: nat, fuel: nat := c0, fuel0;
    while fuel > 0
      invariant Keyed(pending)
      invariant ReadDir(img, g, c0, visited, [], [], [], fuel0)
                == ReadDir(img, g, c, visited, pending, entries, chain, fuel)
    {
      chain := chain + [c];
      var scan := ScanClusterLoop(ReadClus(img, g, c), Bpc(g), pending, entries);
      if scan.IsFailure() {
        return scan.PropagateFailure();
      }
      pending, entries := scan.value.pending, scan.value.entries;
      if scan.value.done {
        return Ok((chain, entries));
      }
      var next := NextClus(img, g, c);
      if next.IsFailure() {
        return next.PropagateFailure();
      }
      c := next.value;
      if c >= EOC_MIN || c in visited {
        return Ok((chain, entries));
      }
      fuel := fuel - 1;
    }
    return OutOfFuel;
  }

  class Inspector {
    var lines: seq<Line>
    var occup: map<nat, Claim>
    var conflicts: seq<Conflict>

    constructor ()
      ensures lines == [] && Books() == NOTHING
    {
      lines, occup, conflicts := [], map[], [];
    }

    function Books(): Occupancy
      reads this
    {
      Occupancy(occup, conflicts)
    }

    method MarkCluster(c: nat, what: Claim)
      modifies this`occup, this`conflicts
      ensures Books() == Mark(old(Books()), c, what)
    {
      if c in occup {
        conflicts := conflicts + [(c, occup[c], what)];
      } else {
        occup := occup[c := what];
      }
    }

    /** `walk_chain_mark` */
    method WalkChainMark(img: Bytes, g: Geo, first: nat, what: Claim) returns (r: Result<()>)
      modifies this`occup, this`conflicts
      ensures var spec := WalkChain(img, g, first, {});
        if spec.Ok? then r.Ok? && Books() == MarkAll(old(Books()), Tag(spec.value, what))
        else r == spec.PropagateFailure()
    {
      var seen: set<nat>, c: nat := {}, first;
      ghost var done: seq<nat> := [];
      PrependNil(WalkChain(img, g, first, {}));
      while DataCluster(c) && c !in seen
        invariant WalkChain(img, g, first, {}) == Prepend(done, WalkChain(img, g, c, seen))
        invariant Books() == MarkAll(old(Books()), Tag(done, what))
        decreases (set x: nat | x < EOC_MIN && DataCluster(x)) - seen
      {
        MarkCluster(c, what);
        MarkOneMore(old(Books()), Tag(done, what), c, what);
        assert Tag(done + [c], what) == Tag(done, what) + [(c, what)];
        var next := NextClus(img, g, c);
        if next.IsFailure() {
          return next.PropagateFailure();
        }
        ghost var rest := WalkChain(img, g, next.value, seen + {c});
        if rest.Ok? { PrependCons(done, c, rest); }
        done := done + [c];
        seen := seen + {c};
        c := next.value;
      }
      assert done + [] == done;
      return Ok(());
    }

    method MarkChain(chain: seq<nat>, what: Claim)
      modifies this`occup, this`conflicts
      ensures Books() == MarkAll(old(Books()), Tag(chain, what))
    {
      for i := 0 to |chain|
        invariant Books() == MarkAll(old(Books()), Tag(chain[..i], what))
      {
        MarkCluster(chain[i], what);
        MarkOneMore(old(Books()), Tag(chain[..i], what), chain[i], what);
        assert Tag(chain[..i + 1], what) == Tag(chain[..i], what) + [(chain[i], what)];
      }
      assert chain[..|chain|] == chain;
    }

    /** `walk_dir` */
    method WalkDirMark(img: Bytes, g: Geo, c: nat, depth: nat, visited: set<nat>, path: Text, fuel: nat)
      returns (r: Result<()>)
      modifies this
      ensures var spec := WalkDir(img, g, c, depth, visited, path, fuel);
        if spec.Ok? then
          r.Ok? && lines == old(lines) + spec.value.lines && Books() == MarkAll(old(Books()), Flat(spec.value.walks))
        else r == spec.PropagateFailure()
      decreases fuel, 0
    {
      hide ReadDir, WalkEntries;
      if c in visited {
        return Ok(());
      }
      if fuel == 0 {
        return OutOfFuel;
      }
      hide MarkAll;
      var dir := ReadDirLoop(img, g, c, visited + {c}, fuel);
      if dir.IsFailure() {
        return dir.PropagateFailure();
      }
      var (chain, entries) := dir.value;
      MarkChain(chain, DirClaim(path));
      var children := Shown(entries);
      lines := lines + [Header(depth, |children|)];
      r := WalkEntriesMark(img, g, children, depth + 1, visited + {c}, path, fuel - 1);
      ghost var rest := WalkEntries(img, g, children, depth + 1, visited + {c}, path, fuel - 1);
      if rest.Ok? {
        FlatOne(Walk(chain, DirClaim(path)));
        FlatAppend([Walk(chain, DirClaim(path))], rest.value.walks);
        MarkAllAppend(old(Books()), Tag(chain, DirClaim(path)), Flat(rest.value.walks));
      }
    }

    method WalkEntryMark(img: Bytes, g: Geo, e: Entry, depth: nat, visited: set<nat>, path: Text, fuel: nat)
      returns (r: Result<()>)
      modifies this
      ensures var spec := WalkEntry(img, g, e, depth, visited, path, fuel);
        if spec.Ok? then
          r.Ok? && lines == old(lines) + spec.value.lines && Books() == MarkAll(old(Books()), Flat(spec.value.walks))
        else r == spec.PropagateFailure()
      ensures r.Ok? ==>
        && |lines| > |old(lines)| && lines[..|old(lines)|] == old(lines) && lines[|old(lines)|].Listed?
        && var l := lines[|old(lines)|];
        && l.depth == depth && l.isDir == e.isDir && l.shown == ShortToName(e.short) && l.name == e.name
        && l.size == e.size && l.first == e.first
      decreases fuel, 1
    {
      hide WalkDir, WalkChain;
      lines := lines + [LineOf(e, depth)];
      if e.isDir {
        r := WalkDirMark(img, g, e.first, depth, visited, Below(path, e.name), fuel);
      } else if e.first >= ROOT_CLUS {
        r := WalkChainMark(img, g, e.first, FileClaim(Below(path, e.name)));
        ghost var chain := WalkChain(img, g, e.first, {});
        if chain.Ok? { FlatOne(Walk(chain.value, FileClaim(Below(path, e.name)))); }
      } else {
        r := Ok(());
      }
    }

    method WalkEntriesMark(img: Bytes, g: Geo, es: seq<Entry>, depth: nat, visited: set<nat>, path: Text, fuel: nat)
      returns (r: Result<()>)
      modifies this
      ensures var spec := WalkEntries(img, g, es, depth, visited, path, fuel);
        if spec.Ok? then
          r.Ok? && lines == old(lines) + spec.value.lines && Books() == MarkAll(old(Books()), Flat(spec.value.walks))
        else r == spec.PropagateFailure()
      decreases fuel, 2
    {
      hide WalkEntry, MarkAll, Flat, WalkDir;
      ghost var done := Report([], []);
      ghost var was := Books();
      PrefixedNone(WalkEntries(img, g, es, depth, visited, path, fuel));
      MarkNone(was);
      for i := 0 to |es|
        invariant WalkEntries(img, g, es, depth, visited, path, fuel)
                  == Prefixed(done, WalkEntries(img, g, es[i..], depth, visited, path, fuel))
        invariant lines == old(lines) + done.lines && Books() == MarkAll(was, Flat(done.walks))
      {
        assert es[i..][0] == es[i] && es[i..][1..] == es[i + 1..];
        r := WalkEntryMark(img, g, es[i], depth, visited, path, fuel);
        if r.IsFailure() {
          return;
        }
        ghost var one := WalkEntry(img, g, es[i], depth, visited, path, fuel).value;
        JoinAssociates(done, one, WalkEntries(img, g, es[i + 1..], depth, visited, path, fuel));
        MarkJoin(was, done, one);
        done := Join(done, one);
      }
      JoinNone(done);
      return Ok(());
    }
  }

  /** `inspect_image`: the lines of the walk, and its books on every claim. */
  method InspectImage(img: Bytes, fuel: nat) returns (r: Result<Summary>)
    ensures var spec := InspectReport(img, fuel);
      r == if spec.Ok? then Ok(Summary(spec.value.lines, MarkAll(NOTHING, Flat(spec.value.walks))))
           else spec.PropagateFailure()
  {
    hide WalkDir, MarkAll, ReadBpb, PartitionStart;
    var g := ReadBpb(img, PartitionStart(img) * SECTOR);
    if g.IsFailure() {
      return g.PropagateFailure();
    }
    var inspector := new Inspector();
    var walked := inspector.WalkDirMark(img, g.value, g.value.root, 0, {}, [], fuel);
    if walked.IsFailure() {
      return walked.PropagateFailure();
    }
    ghost var lines := WalkDir(img, g.value, g.value.root, 0, {}, [], fuel).value.lines;
    assert [] + lines == lines;
    return Ok(Summary(inspector.lines, inspector.Books()));
  }
}
