/** Strings as lists of tokens between separators. */
module Tokens {

  /** The tokens of a string, empty ones included. */
  function Split(s: string, sep: char): (r: seq<string>)
    ensures r != []
  {
    if s == "" then [""]
    else if s[0] == sep then [""] + Split(s[1..], sep)
    else [[s[0]] + Split(s[1..], sep)[0]] + Split(s[1..], sep)[1..]
  }

  function Join(ts: seq<string>, sep: char): string
    requires ts != []
  {
    if |ts| == 1 then ts[0] else ts[0] + [sep] + Join(ts[1..], sep)
  }

  lemma {:induction false} SplitPrefix(t: string, rest: string, sep: char)
    requires sep !in t
    ensures Split(t + [sep] + rest, sep) == [t] + Split(rest, sep) && Split(t, sep) == [t]
    decreases |t|
  {
    if t == "" {
      assert (t + [sep] + rest)[1..] == rest;
    } else {
      SplitPrefix(t[1..], rest, sep);
      assert (t + [sep] + rest)[1..] == t[1..] + [sep] + rest;
      assert [t[0]] + t[1..] == t;
    }
  }

  /** Splitting undoes joining. */
  lemma {:induction false} SplitJoin(ts: seq<string>, sep: char)
    requires ts != [] && forall i :: 0 <= i < |ts| ==> sep !in ts[i]
    ensures Split(Join(ts, sep), sep) == ts
    decreases |ts|
  {
    if |ts| == 1 {
      SplitPrefix(ts[0], "", sep);
    } else {
      SplitJoin(ts[1..], sep);
      SplitPrefix(ts[0], Join(ts[1..], sep), sep);
    }
  }

  /** Joining undoes splitting. */
  lemma {:induction false} JoinSplit(s: string, sep: char)
    ensures Join(Split(s, sep), sep) == s
    decreases |s|
  {
    if s != "" {
      JoinSplit(s[1..], sep);
      var rest := Split(s[1..], sep);
      var ts := Split(s, sep);
      if s[0] == sep {
        assert ts[1..] == rest;
        assert s == "" + [sep] + s[1..];
      } else {
        assert ts[1..] == rest[1..];
        assert s == [s[0]] + s[1..];
      }
    }
  }

  lemma {:induction false} JoinAppend(xs: seq<string>, ys: seq<string>, sep: char)
    requires xs != [] && ys != []
    ensures Join(xs + ys, sep) == Join(xs, sep) + [sep] + Join(ys, sep)
    decreases |xs|
  {
    if |xs| == 1 {
      assert (xs + ys)[1..] == ys;
    } else {
      assert (xs + ys)[1..] == xs[1..] + ys;
      JoinAppend(xs[1..], ys, sep);
    }
  }

  lemma SplitCons(c: char, t: string, sep: char)
    ensures Split("", sep) == [""]
    ensures Split([c] + t, sep)
            == if c == sep then [""] + Split(t, sep) else [[c] + Split(t, sep)[0]] + Split(t, sep)[1..]
  {
    assert ([c] + t)[1..] == t;
  }

  /** A prefix of a string has its components, the last one possibly cut. */
  lemma {:induction false} SplitTake(s: string, n: nat, sep: char)
    requires n <= |s|
    ensures var ps, cs := Split(s[..n], sep), Split(s, sep);
      && |ps| <= |cs| && ps[|ps| - 1] <= cs[|ps| - 1]
      && forall i :: 0 <= i < |ps| - 1 ==> ps[i] == cs[i]
    decreases |s|
  {
    hide Split;
    if n == 0 {
      SplitCons(sep, "", sep);
      assert s[..n] == "";
    } else {
      var c, t := s[0], s[1..];
      SplitTake(t, n - 1, sep);
      SplitCons(c, t, sep);
      SplitCons(c, t[..n - 1], sep);
      assert s == [c] + t && s[..n] == [c] + t[..n - 1];
    }
  }

  /** Splitting distributes over a separator. */
  lemma {:induction false} SplitAppend(a: string, b: string, sep: char)
    ensures Split(a + [sep] + b, sep) == Split(a, sep) + Split(b, sep)
    decreases |a|
  {
    hide Split;
    if a == "" {
      SplitCons(sep, b, sep);
      assert a + [sep] + b == [sep] + b;
    } else {
      var c, t := a[0], a[1..];
      SplitCons(c, t, sep);
      SplitCons(c, t + [sep] + b, sep);
      SplitAppend(t, b, sep);
      assert a == [c] + t && a + [sep] + b == [c] + (t + [sep] + b);
      var u, v := Split(t, sep), Split(b, sep);
      assert (u + v)[0] == u[0] && (u + v)[1..] == u[1..] + v;
    }
  }
}
