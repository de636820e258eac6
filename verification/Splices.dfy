/** A run of slice assignments `img[off:off+room] = bytes` over one buffer that
    grows and shrinks under them, and the exact condition under which every
    written byte is still in its place at the end. */
module Splices {
  import opened ByteStrings

  datatype Write = Write(off: nat, room: nat, bytes: Bytes)

  function Apply(img: Bytes, w: Write): Bytes {
    Splice(img, w.off, w.off + w.room, w.bytes)
  }

  function ApplyAll(img: Bytes, ws: seq<Write>): Bytes
    decreases |ws|
  {
    if ws == [] then img else ApplyAll(Apply(img, ws[0]), ws[1..])
  }

  predicate Holds(img: Bytes, w: Write) {
    w.off + |w.bytes| <= |img| && img[w.off..w.off + |w.bytes|] == w.bytes
  }

  /** The buffer's length after one write. */
  function LenAfter(len: nat, w: Write): nat {
    Min(w.off, len) + |w.bytes| + (len - Min(w.off + w.room, len))
  }

  /** Every write starts inside the buffer, or right at its end, when its turn comes. */
  predicate Lands(len: nat, ws: seq<Write>)
    decreases |ws|
  {
    ws == [] || (ws[0].off <= len && Lands(LenAfter(len, ws[0]), ws[1..]))
  }

  /** `v` comes after `w` in the run: it lies wholly above it, or wholly below it
      and then keeps the buffer's length where it is in range. */
  predicate Follows(w: Write, v: Write) {
    || w.off + w.room <= v.off
    || (v.off + v.room <= w.off && |v.bytes| == v.room)
  }

  predicate Sane(w: Write) { 0 < |w.bytes| <= w.room }

  ghost predicate Orderly(ws: seq<Write>) {
    && (forall i :: 0 <= i < |ws| ==> Sane(ws[i]))
    && (forall i, j :: 0 <= i < j < |ws| ==> Follows(ws[i], ws[j]))
  }

  lemma ApplyLength(img: Bytes, w: Write)
    ensures |Apply(img, w)| == LenAfter(|img|, w)
  {}

  lemma {:induction false} ApplyAllAppend(img: Bytes, xs: seq<Write>, ys: seq<Write>)
    ensures ApplyAll(img, xs + ys) == ApplyAll(ApplyAll(img, xs), ys)
    decreases |xs|
  {
    if xs == [] {
      assert xs + ys == ys;
    } else {
      assert (xs + ys)[1..] == xs[1..] + ys;
      ApplyAllAppend(Apply(img, xs[0]), xs[1..], ys);
    }
  }

  /** A landing write leaves an earlier one in place. */
  lemma ApplyKeeps(img: Bytes, w: Write, v: Write)
    requires Holds(img, w) && Sane(w) && Sane(v) && Follows(w, v) && v.off <= |img|
    ensures Holds(Apply(img, v), w)
  {
    var after := Apply(img, v);
    var end := w.off + |w.bytes|;
    ApplyLength(img, v);
    if w.off + w.room <= v.off {
      SamePart(after, img, v.off, w.off, end);
    } else {
      SameTail(after, img, v.off + v.room, w.off, end);
    }
  }

  /** A later write leaves an earlier one in place, landing or not: a missing one is
      appended. */
  lemma LaterKeeps(img: Bytes, w: Write, v: Write)
    requires Holds(img, w) && Sane(w) && Sane(v) && Follows(w, v)
    ensures Holds(Apply(img, v), w)
  {
    if v.off <= |img| {
      ApplyKeeps(img, w, v);
    } else {
      var end := w.off + |w.bytes|;
      assert Apply(img, v) == img + v.bytes;
      assert Apply(img, v)[w.off..end] == img[w.off..end];
    }
  }

  lemma {:induction false} LaterAllKeep(img: Bytes, w: Write, ws: seq<Write>)
    requires Holds(img, w) && Sane(w) && forall v :: v in ws ==> Sane(v) && Follows(w, v)
    ensures Holds(ApplyAll(img, ws), w)
    decreases |ws|
  {
    hide Holds, Sane, Follows, Apply;
    if ws != [] {
      assert ws[0] in ws;
      LaterKeeps(img, w, ws[0]);
      LaterAllKeep(Apply(img, ws[0]), w, ws[1..]);
    }
  }

  lemma {:induction false} LandingHolds(img: Bytes, ws: seq<Write>)
    requires Orderly(ws) && Lands(|img|, ws)
    ensures forall w :: w in ws ==> Holds(ApplyAll(img, ws), w)
    decreases |ws|
  {
    if ws != [] {
      var first := Apply(img, ws[0]);
      ApplyLength(img, ws[0]);
      assert Orderly(ws[1..]);
      LandingHolds(first, ws[1..]);
      LaterAllKeep(first, ws[0], ws[1..]);
    }
  }

  /** Once a region runs past the end of the buffer, some region does at the end
      of the run: later writes below it stay below, later writes above it miss too. */
  lemma {:induction false} ShortStaysShort(img: Bytes, w: Write, ws: seq<Write>)
    returns (short: Write)
    requires Sane(w) && Orderly(ws) && |img| < w.off + |w.bytes|
    requires forall v :: v in ws ==> Follows(w, v)
    ensures short in [w] + ws
    ensures |ApplyAll(img, ws)| < short.off + |short.bytes|
    decreases |ws|
  {
    if ws == [] {
      short := w;
    } else {
      var v := ws[0];
      assert v in ws;
      ApplyLength(img, v);
      if w.off + w.room <= v.off {
        short := ShortStaysShort(Apply(img, v), v, ws[1..]);
      } else {
        short := ShortStaysShort(Apply(img, v), w, ws[1..]);
      }
    }
  }

  lemma {:induction false} MissShows(img: Bytes, ws: seq<Write>) returns (short: Write)
    requires Orderly(ws) && !Lands(|img|, ws)
    ensures short in ws && |ApplyAll(img, ws)| < short.off + |short.bytes|
    decreases |ws|
  {
    var after := Apply(img, ws[0]);
    ApplyLength(img, ws[0]);
    if ws[0].off <= |img| {
      short := MissShows(after, ws[1..]);
    } else {
      short := ShortStaysShort(after, ws[0], ws[1..]);
    }
  }

  /** Every written byte is where it belongs exactly when every write lands. */
  lemma {:induction false} HoldsIffLands(img: Bytes, ws: seq<Write>)
    requires Orderly(ws)
    ensures (forall w :: w in ws ==> Holds(ApplyAll(img, ws), w)) <==> Lands(|img|, ws)
  {
    if Lands(|img|, ws) {
      LandingHolds(img, ws);
    } else {
      var short := MissShows(img, ws);
    }
  }

  /** Bytes below every write are never touched, landing or not. */
  lemma {:induction false} ApplyAllPrefix(img: Bytes, lo: nat, ws: seq<Write>)
    requires lo <= |img| && forall w :: w in ws ==> lo <= w.off
    ensures lo <= |ApplyAll(img, ws)| && ApplyAll(img, ws)[..lo] == img[..lo]
    decreases |ws|
  {
    if ws != [] {
      assert ws[0] in ws;
      assert Apply(img, ws[0])[..lo] == img[..lo];
      ApplyAllPrefix(Apply(img, ws[0]), lo, ws[1..]);
    }
  }

  /** Total shrinkage of a run that stays inside the buffer. */
  function Slack(ws: seq<Write>): int {
    if ws == [] then 0 else ws[0].room - |ws[0].bytes| + Slack(ws[1..])
  }

  lemma {:induction false} SlackAppend(xs: seq<Write>, ys: seq<Write>)
    ensures Slack(xs + ys) == Slack(xs) + Slack(ys)
  {
    if xs == [] {
      assert xs + ys == ys;
    } else {
      assert (xs + ys)[1..] == xs[1..] + ys;
      SlackAppend(xs[1..], ys);
    }
  }

  lemma {:induction false} SlackNonNegative(ws: seq<Write>)
    requires forall w :: w in ws ==> |w.bytes| <= w.room
    ensures 0 <= Slack(ws)
  {
    if ws != [] { SlackNonNegative(ws[1..]); }
  }

  /** A run whose regions fit even in the fully shrunk buffer lands, and leaves
      the buffer shorter by exactly the summed slack. */
  lemma {:induction false} RoomyLands(img: Bytes, ws: seq<Write>)
    requires forall w :: w in ws ==> |w.bytes| <= w.room && w.off + w.room <= |img| - Slack(ws)
    ensures Lands(|img|, ws) && |ApplyAll(img, ws)| == |img| - Slack(ws)
    decreases |ws|
  {
    if ws != [] {
      SlackNonNegative(ws[1..]);
      assert ws[0] in ws;
      ApplyLength(img, ws[0]);
      RoomyLands(Apply(img, ws[0]), ws[1..]);
    }
  }

  // ---- the exact length ----

  /** Where the highest written byte ends. */
  function End(ws: seq<Write>): nat {
    if ws == [] then 0 else Max(ws[0].off + |ws[0].bytes|, End(ws[1..]))
  }

  lemma {:induction false} EndInside(len: nat, ws: seq<Write>)
    requires forall w :: w in ws ==> w.off + |w.bytes| <= len
    ensures End(ws) <= len
  {
    if ws != [] {
      assert ws[0] in ws;
      EndInside(len, ws[1..]);
    }
  }

  /** A landing run leaves the buffer shorter by the summed slack, unless its highest
      byte lies beyond that. */
  lemma {:induction false} LandedLength(img: Bytes, ws: seq<Write>)
    requires Orderly(ws) && Lands(|img|, ws)
    ensures |ApplyAll(img, ws)| == Max(|img| - Slack(ws), End(ws))
    decreases |ws|
  {
    hide Apply, Orderly, Holds, Slack, End, LenAfter, Sane, Follows;
    if ws == [] {
      NothingWritten();
    } else {
      OrderlyParts(ws);
      ApplyLength(img, ws[0]);
      LandedLength(Apply(img, ws[0]), ws[1..]);
      FirstInside(img, ws);
      SlackNonNegative(ws[1..]);
      LengthStep(|img|, ws, |ApplyAll(img, ws)|);
    }
  }

  lemma OrderlyParts(ws: seq<Write>)
    requires ws != [] && Orderly(ws)
    ensures Orderly(ws[1..]) && ws[0] in ws && Sane(ws[0]) && forall w :: w in ws[1..] ==> |w.bytes| <= w.room
  {}

  lemma NothingWritten()
    ensures Slack([]) == 0 == End([])
  {}

  lemma FirstInside(img: Bytes, ws: seq<Write>)
    requires ws != [] && Orderly(ws) && Lands(|img|, ws)
    ensures ws[0].off + |ws[0].bytes| <= |ApplyAll(img, ws)|
  {
    hide ApplyAll, Orderly, Lands;
    LandingHolds(img, ws);
    assert Holds(ApplyAll(img, ws), ws[0]);
  }

  lemma LengthStep(len: nat, ws: seq<Write>, final: nat)
    requires ws != [] && Sane(ws[0]) && ws[0].off <= len && 0 <= Slack(ws[1..])
    requires final == Max(LenAfter(len, ws[0]) - Slack(ws[1..]), End(ws[1..])) && ws[0].off + |ws[0].bytes| <= final
    ensures final == Max(len - Slack(ws), End(ws))
  {}

  lemma {:induction false} EndReached(ws: seq<Write>, w: Write)
    requires w in ws
    ensures w.off + |w.bytes| <= End(ws)
  {
    if w != ws[0] { EndReached(ws[1..], w); }
  }

  /** The buffer's length after a run, landing or not. */
  function LenAll(len: nat, ws: seq<Write>): nat
    decreases |ws|
  {
    if ws == [] then len else LenAll(LenAfter(len, ws[0]), ws[1..])
  }

  lemma {:induction false} LenAllIs(img: Bytes, ws: seq<Write>)
    ensures |ApplyAll(img, ws)| == LenAll(|img|, ws)
    decreases |ws|
  {
    hide Apply;
    if ws != [] {
      ApplyLength(img, ws[0]);
      LenAllIs(Apply(img, ws[0]), ws[1..]);
    }
  }

  /** A run lands exactly when the finished buffer reaches to the highest written byte. */
  lemma InsideIffLands(img: Bytes, ws: seq<Write>)
    requires Orderly(ws)
    ensures End(ws) <= |ApplyAll(img, ws)| <==> Lands(|img|, ws)
  {
    hide Orderly, Lands, ApplyAll, End;
    if Lands(|img|, ws) {
      LandingHolds(img, ws);
      EndInside(|ApplyAll(img, ws)|, ws);
    } else {
      var short := MissShows(img, ws);
      EndReached(ws, short);
    }
  }

  // ---- each write by itself ----

  /** Write `i` starts inside the buffer, or right at its end, when its turn comes. */
  predicate LandsAt(len: nat, ws: seq<Write>, i: nat)
    requires i < |ws|
  {
    ws[i].off <= LenAll(len, ws[..i])
  }

  /** A run lands when each of its writes does. */
  lemma {:induction false} LandsIsEach(len: nat, ws: seq<Write>)
    ensures Lands(len, ws) <==> forall i :: 0 <= i < |ws| ==> LandsAt(len, ws, i)
    decreases |ws|
  {
    hide LenAfter;
    if ws != [] {
      var next, rest := LenAfter(len, ws[0]), ws[1..];
      LandsIsEach(next, rest);
      assert LandsAt(len, ws, 0) <==> ws[0].off <= len;
      forall i | 0 <= i < |rest|
        ensures LandsAt(len, ws, i + 1) <==> LandsAt(next, rest, i)
      {
        assert ws[..i + 1][0] == ws[0] && ws[..i + 1][1..] == rest[..i];
      }
      assert forall i :: 0 < i < |ws| ==> (LandsAt(len, ws, i) <==> LandsAt(next, rest, i - 1));
    }
  }

  /** Each region whose own write landed is in place at the end, whatever the others do. */
  lemma LandedHolds(img: Bytes, ws: seq<Write>, i: nat)
    requires Orderly(ws) && i < |ws| && LandsAt(|img|, ws, i)
    ensures Holds(ApplyAll(img, ws), ws[i])
  {
    hide Sane, Follows, LenAll, ApplyAll;
    var before, w, after := ws[..i], ws[i], ws[i + 1..];
    LenAllIs(img, before);
    var here := ApplyAll(img, before);
    assert Holds(Apply(here, w), w);
    hide Holds;
    forall v | v in after
      ensures Sane(v) && Follows(w, v)
    {
      var j :| 0 <= j < |after| && after[j] == v;
      assert ws[i + 1 + j] == v;
    }
    assert Sane(w);
    LaterAllKeep(Apply(here, w), w, after);
    ApplyAllSplit(img, ws, i);
  }

  lemma ApplyAllSplit(img: Bytes, ws: seq<Write>, i: nat)
    requires i < |ws|
    ensures ApplyAll(img, ws) == ApplyAll(Apply(ApplyAll(img, ws[..i]), ws[i]), ws[i + 1..])
  {
    hide Apply;
    var before, rest := ws[..i], ws[i..];
    ApplyAllAppend(img, before, rest);
    assert before + rest == ws && rest[0] == ws[i] && rest[1..] == ws[i + 1..];
  }

  ghost predicate LandedHold(img: Bytes, len: nat, ws: seq<Write>) {
    forall i :: 0 <= i < |ws| && LandsAt(len, ws, i) ==> Holds(img, ws[i])
  }

  /** Where the first writes of a run all land, their regions are in place at the end. */
  lemma PrefixHolds(img: Bytes, len: nat, xs: seq<Write>, ys: seq<Write>)
    requires LandedHold(img, len, xs + ys) && Lands(len, xs)
    ensures forall w :: w in xs ==> Holds(img, w)
  {
    hide Holds, LenAll;
    LandsIsEach(len, xs);
    var all := xs + ys;
    forall i | 0 <= i < |xs|
      ensures Holds(img, xs[i])
    {
      assert all[i] == xs[i] && all[..i] == xs[..i];
      assert LandsAt(len, xs, i);
      assert LandsAt(len, all, i);
    }
  }

  // ---- the bytes nobody writes ----

  predicate Covers(w: Write, k: nat) { w.off <= k < w.off + |w.bytes| }

  ghost predicate Touched(ws: seq<Write>, k: nat) { exists i :: 0 <= i < |ws| && Covers(ws[i], k) }

  /** From `lo` on, every byte that no write covers is zero. */
  ghost predicate ZeroElsewhere(img: Bytes, lo: nat, ws: seq<Write>) {
    forall k: nat :: lo <= k < |img| && !Touched(ws, k) ==> img[k] == 0
  }

  lemma ApplyAt(img: Bytes, v: Write, k: nat)
    requires v.off <= |img| && k < |Apply(img, v)| && !Covers(v, k)
    ensures k < v.off ==> Apply(img, v)[k] == img[k]
    ensures k >= v.off ==> k - |v.bytes| + v.room < |img| && Apply(img, v)[k] == img[k - |v.bytes| + v.room]
  {}

  /** A write that shrinks the buffer only moves bytes no earlier write covers. */
  lemma ZeroStep(img: Bytes, lo: nat, before: seq<Write>, v: Write)
    requires ZeroElsewhere(img, lo, before) && Sane(v) && lo <= v.off <= |img|
    requires forall i :: 0 <= i < |before| ==> Sane(before[i]) && Follows(before[i], v)
    ensures ZeroElsewhere(Apply(img, v), lo, before + [v])
  {
    hide Apply, ZeroElsewhere;
    var ws := before + [v];
    assert forall i :: 0 <= i < |before| ==> ws[i] == before[i];
    forall k: nat | lo <= k < |Apply(img, v)| && !Touched(ws, k)
      ensures Apply(img, v)[k] == 0
    {
      assert !Covers(v, k) by { assert ws[|before|] == v; }
      ApplyAt(img, v, k);
      var from := if k < v.off then k else k - |v.bytes| + v.room;
      assert !Touched(before, from);
      ZeroAt(img, lo, before, from);
    }
    ZeroIs(Apply(img, v), lo, ws);
  }

  lemma ZeroAt(img: Bytes, lo: nat, ws: seq<Write>, k: nat)
    requires ZeroElsewhere(img, lo, ws) && lo <= k < |img| && !Touched(ws, k)
    ensures img[k] == 0
  {}

  lemma ZeroIs(img: Bytes, lo: nat, ws: seq<Write>)
    requires forall k: nat :: lo <= k < |img| && !Touched(ws, k) ==> img[k] == 0
    ensures ZeroElsewhere(img, lo, ws)
  {}

  /** A landing run over zeros leaves zeros wherever it does not write. */
  lemma {:induction false} LandingPads(img: Bytes, lo: nat, before: seq<Write>, ws: seq<Write>)
    requires ZeroElsewhere(img, lo, before) && Orderly(before + ws) && Lands(|img|, ws)
    requires forall i :: 0 <= i < |ws| ==> lo <= ws[i].off
    ensures ZeroElsewhere(ApplyAll(img, ws), lo, before + ws)
    decreases |ws|
  {
    hide ZeroElsewhere, Sane, Follows, Apply;
    if ws == [] {
      assert before + ws == before;
    } else {
      var all, n := before + ws, |before|;
      assert all[n] == ws[0] && forall i :: 0 <= i < n ==> all[i] == before[i];
      ZeroStep(img, lo, before, ws[0]);
      ApplyLength(img, ws[0]);
      assert before + [ws[0]] + ws[1..] == all;
      LandingPads(Apply(img, ws[0]), lo, before + [ws[0]], ws[1..]);
    }
  }
}
