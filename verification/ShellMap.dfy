/** The Shell's mapping table: scanning alias strings, and giving every unmapped
    file system the first free fsN: name. */
module ShellMap {
  import opened ByteStrings
  import opened Tokens

  predicate FsLike(t: string) { |t| >= 2 && t[0] in "fF" && t[1] in "sS" }

  lemma FsLikeIs(t: string)
    ensures FsLike(t) <==> |t| >= 2 && t[..2] in {"fs", "fS", "Fs", "FS"}
  {
    if |t| >= 2 { assert t[..2] == [t[0], t[1]]; }
  }

  /** The first token that looks like an fs name, and those after it. */
  function FromFs(ts: seq<string>): seq<string> {
    if ts == [] || FsLike(ts[0]) then ts else FromFs(ts[1..])
  }

  /** Where the pointer scan stops, for the rest `u` of the string; `start` tells
      whether `u` begins a token. */
  function Scan(u: string, start: bool): (r: Option<nat>)
    ensures r.Some? ==> r.value <= |u|
  {
    if u == "" then None
    else if start && FsLike(u) then Some(0)
    else
      var rest := Scan(u[1..], u[0] == ';');
      if rest.None? then None else Some(rest.value + 1)
  }

  /** `MapFindFsAlias`: an offset into the string. */
  method FindFsAlias(mapNames: Option<string>) returns (r: Option<nat>)
    ensures r == if mapNames.None? then None else Scan(mapNames.value, true)
    ensures r.Some? ==> r.value <= |mapNames.value|
  {
    if mapNames.None? {
      return None;
    }
    var s := mapNames.value;
    var tok := 0;
    assert s[0..] == s;
    while tok < |s|
      invariant 0 <= tok <= |s|
      invariant var rest := Scan(s[tok..], tok == 0 || s[tok - 1] == ';');
        Scan(s, true) == if rest.None? then None else Some(tok + rest.value)
    {
      if (tok == 0 || s[tok - 1] == ';') && s[tok] in "fF" && tok + 1 < |s| && s[tok + 1] in "sS" {
        assert FsLike(s[tok..]);
        return Some(tok);
      }
      assert s[tok..][1..] == s[tok + 1..];
      tok := tok + 1;
    }
    return None;
  }

  /** The scan agrees with splitting: it finds the first fs token, or none. */
  lemma {:induction false} ScanIsSplit(u: string, start: bool)
    ensures var ts := FromFs(if start then Split(u, ';') else Split(u, ';')[1..]);
      if Scan(u, start).None? then ts == [] else ts != [] && Split(u[Scan(u, start).value..], ';') == ts
    decreases |u|
  {
    if u == "" {
      assert Split(u, ';')[1..] == [];
    } else {
      var v := u[1..];
      ScanIsSplit(v, u[0] == ';');
      assert Split(u, ';')[1..] == if u[0] == ';' then Split(v, ';') else Split(v, ';')[1..];
      if start {
        assert FsLike(Split(u, ';')[0]) <==> FsLike(u) by { HeadOfSplit(u); }
      }
      var r := Scan(u, start);
      if start && FsLike(u) {
        assert u[0..] == u;
      } else if r.Some? {
        assert u[r.value..] == v[r.value - 1..];
      }
    }
  }

  lemma HeadOfSplit(u: string)
    requires u != ""
    ensures FsLike(Split(u, ';')[0]) <==> FsLike(u)
  {
    if |u| >= 2 {
      assert u[1..][0] == u[1];
    }
  }

  /** `MapCopyAlias`: the token at the front of `alias`, cut to the buffer. */
  method CopyAlias(alias: string, nameSize: nat) returns (name: string)
    requires nameSize > 0
    ensures name == var t := Split(alias, ';')[0]; t[..Min(|t|, nameSize - 1)]
  {
    var len := 0;
    TokenLength(alias, 0);
    while len < |alias| && alias[len] != ';' && len < nameSize - 1
      invariant 0 <= len <= |Split(alias, ';')[0]| && len < nameSize
    {
      TokenLength(alias, len);
      len := len + 1;
    }
    TokenLength(alias, len);
    name := alias[..len];
  }

  /** The first token is the prefix before the first ';'. */
  lemma {:induction false} TokenLength(s: string, i: nat)
    ensures Split(s, ';')[0] <= s
    ensures i < |Split(s, ';')[0]| ==> s[i] != ';'
    ensures i == |Split(s, ';')[0]| ==> i == |s| || s[i] == ';'
    decreases |s|
  {
    if s != "" && s[0] != ';' {
      TokenLength(s[1..], if i > 0 then i - 1 else 0);
      assert Split(s, ';')[0] == [s[0]] + Split(s[1..], ';')[0];
    }
  }

  /** Find, then copy: the first ';'-separated token that begins with "fs" in either
      case, cut to the buffer; the first token of all where there is none. */
  method ShownName(mapNames: string, nameSize: nat) returns (name: string)
    requires nameSize > 0
    ensures var fs := FromFs(Split(mapNames, ';'));
      var t := if fs != [] then fs[0] else Split(mapNames, ';')[0];
      name == t[..Min(|t|, nameSize - 1)]
  {
    var at := FindFsAlias(Some(mapNames));
    ScanIsSplit(mapNames, true);
    if at.Some? {
      name := CopyAlias(mapNames[at.value..], nameSize);
    } else {
      name := CopyAlias(mapNames, nameSize);
    }
  }
}
