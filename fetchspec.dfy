/**
  How `findRemoteTrackingBranch` maps a ref of a remote to the local name of
  its remote-tracking branch: it reads the remote's fetch refspecs and uses
  the first one whose source side is a prefix of the ref. The refspec lines
  and git's answer for the abbreviated name are parameters here; reading the
  configuration is left out.
 */
module Fetchspecs {
  import opened TextOrder
  import opened Commands

  /** A fetch refspec once normalised: the source prefix and the destination prefix. */
  datatype Fetchspec = Fetchspec(src: string, dst: string)

  /** What `git rev-parse --abbrev-ref` answers: a name, or an error. */
  datatype Answer = Output(name: string) | Failure(message: string)

  /** The outcome of the lookup: a branch, an error, or the run-time panic of indexing past the split. */
  datatype Lookup = Tracked(branch: string) | Failed(message: string) | Panic

  predicate HasPrefix(s: string, p: string)
  {
    |p| <= |s| && s[..|p|] == p
  }

  predicate EndsWithStar(s: string)
  {
    s != [] && s[|s| - 1] == '*'
  }

  /** The refspec starts with `+`, the mark of a forced update. */
  predicate Forced(s: string)
  {
    s != [] && s[0] == '+'
  }

  /** The refspec without one leading `+`. */
  function Unforced(s: string): (r: string)
    ensures Forced(s) ==> s == "+" + r
    ensures !Forced(s) ==> r == s
  {
    if Forced(s) then s[1..] else s
  }

  /**
    Lines 537-544 of main.go: drop one leading `+`, split at the first `:`,
    and drop a trailing `*` from both sides when both have one. `None` when
    there is no `:`, where the program indexes past the end of the split.
   */
  function Normalize(s: string): (r: Option<Fetchspec>)
    ensures r.None? <==> ':' !in Unforced(s)
  {
    var u := Unforced(s);
    if ':' !in u then None
    else
      var i := FirstIndex(u, ':');
      var f, l := u[..i], u[i + 1..];
      if EndsWithStar(f) && EndsWithStar(l) then Some(Fetchspec(f[..|f| - 1], l[..|l| - 1]))
      else Some(Fetchspec(f, l))
  }

  /** Splitting at the first colon of `f + ":" + l` gives `f` and `l` back. */
  lemma SplitAtColon(f: string, l: string)
    requires ':' !in f
    ensures ':' in f + ":" + l
    ensures var u := f + ":" + l; var i := FirstIndex(u, ':'); u[..i] == f && u[i + 1..] == l
  {
    var u := f + ":" + l;
    assert u[|f|] == ':' && u[..|f|] == f;
    assert u[..|f| + 1][|f|] == ':';
  }

  /** The steps of lines 537-544 one by one: the first `:` of the unforced refspec splits it, then the stars go. */
  lemma NormalizeSteps(spec: string, u: string, i: nat, f: string, l: string)
    requires u == Unforced(spec) && ':' in u && i == FirstIndex(u, ':')
    requires f == u[..i] && l == u[i + 1..]
    ensures EndsWithStar(f) && EndsWithStar(l) ==> Normalize(spec) == Some(Fetchspec(f[..|f| - 1], l[..|l| - 1]))
    ensures !(EndsWithStar(f) && EndsWithStar(l)) ==> Normalize(spec) == Some(Fetchspec(f, l))
  {
  }

  /** A leading `+` only marks the refspec as forced: normalising ignores it. */
  lemma NormalizeForced(s: string)
    requires !Forced(s)
    ensures Normalize("+" + s) == Normalize(s)
  {
    var line := "+" + s;
    assert Forced(line) && line[1..] == s;
    assert Unforced(line) == s == Unforced(s);
  }

  /** A wildcard refspec `f*:l*` normalises to the two prefixes `f` and `l`. */
  lemma NormalizeWildcard(f: string, l: string)
    requires ':' !in f && !Forced(f + "*")
    ensures Normalize(f + "*:" + l + "*") == Some(Fetchspec(f, l))
  {
    var fs, ls := f + "*", l + "*";
    var u := fs + ":" + ls;
    assert f + "*:" + l + "*" == u;
    assert u[0] == fs[0];
    assert Unforced(u) == u;
    SplitAtColon(fs, ls);
    NormalizeSteps(u, u, FirstIndex(u, ':'), fs, ls);
    assert EndsWithStar(fs) && EndsWithStar(ls);
    assert fs[..|fs| - 1] == f && ls[..|ls| - 1] == l;
  }

  /** A refspec `f:l` without a wildcard pair normalises to `f` and `l` unchanged. */
  lemma NormalizeExact(f: string, l: string)
    requires ':' !in f && !Forced(f)
    requires !(EndsWithStar(f) && EndsWithStar(l))
    ensures Normalize(f + ":" + l) == Some(Fetchspec(f, l))
  {
    assert !Forced(f + ":" + l) by {
      if f == [] { assert (f + ":" + l)[0] == ':'; } else { assert (f + ":" + l)[0] == f[0]; }
    }
    SplitAtColon(f, l);
  }

  /** The name a matching refspec gives: its destination followed by the rest of the ref. */
  function Rewrite(fs: Fetchspec, name: string): string
    requires HasPrefix(name, fs.src)
  {
    fs.dst + name[|fs.src|..]
  }

  /** What git answers for the rewritten name decides the outcome of a match. */
  function Answered(a: Answer): (r: Lookup)
    ensures r != Panic
  {
    match a
    case Output(b) => Tracked(b)
    case Failure(e) => Failed(e)
  }

  /** The error when no refspec matches. */
  function NotFetched(remote: string, name: string): string
  {
    "remote " + remote + " does not fetch ref " + name
  }

  /** The lookup as written: the refspecs in order, the first match decides, a refspec without `:` panics. */
  function Resolve(remote: string, name: string, specs: seq<string>, abbrev: string -> Answer): (r: Lookup)
    ensures (forall k :: 0 <= k < |specs| ==> Normalize(specs[k]).Some?) ==> r != Panic
    decreases |specs|
  {
    if specs == [] then Failed(NotFetched(remote, name))
    else match Normalize(specs[0])
      case None => Panic
      case Some(fs) =>
        if HasPrefix(name, fs.src) then Answered(abbrev(Rewrite(fs, name)))
        else Resolve(remote, name, specs[1..], abbrev)
  }

  /**
    The fetchspec loop of `findRemoteTrackingBranch` (main.go:536-555): each
    refspec is normalised in turn and the first whose source is a prefix of
    the ref is rewritten and passed to git. A refspec without `:` is passed
    over here, where the code as written panics (`ColonlessSpecPanics`).
   */
  method FindRemoteTrackingBranch(remote: string, name: string, fetchspecs: seq<string>, abbrev: string -> Answer)
    returns (r: Lookup)
    ensures r == ResolveSkipping(remote, name, fetchspecs, abbrev)
    ensures r != Panic
  {
    for k := 0 to |fetchspecs|
      invariant ResolveSkipping(remote, name, fetchspecs[k..], abbrev) == ResolveSkipping(remote, name, fetchspecs, abbrev)
    {
      SkippingFrom(remote, name, fetchspecs, abbrev, k);
      var s := fetchspecs[k];
      if Forced(s) {
        s := s[1..];
      }
      if ':' !in s {
        continue;
      }
      var i := FirstIndex(s, ':');
      var f, l := s[..i], s[i + 1..];
      NormalizeSteps(fetchspecs[k], s, i, f, l);
      if EndsWithStar(f) && EndsWithStar(l) {
        f, l := f[..|f| - 1], l[..|l| - 1];
      }
      if HasPrefix(name, f) {
        var b := l + name[|f|..];
        match abbrev(b)
        case Failure(e) => return Failed(e);
        case Output(full) => return Tracked(full);
      }
    }
    r := Failed(NotFetched(remote, name));
  }

  /** The lookup from refspec `k` on: what refspec `k` decides, or the lookup from `k + 1` on. */
  lemma ResolveFrom(remote: string, name: string, specs: seq<string>, abbrev: string -> Answer, k: nat)
    requires k < |specs|
    ensures Normalize(specs[k]).None? ==> Resolve(remote, name, specs[k..], abbrev) == Panic
    ensures Normalize(specs[k]).Some? && HasPrefix(name, Normalize(specs[k]).value.src) ==>
              Resolve(remote, name, specs[k..], abbrev) == Answered(abbrev(Rewrite(Normalize(specs[k]).value, name)))
    ensures Normalize(specs[k]).Some? && !HasPrefix(name, Normalize(specs[k]).value.src) ==>
              Resolve(remote, name, specs[k..], abbrev) == Resolve(remote, name, specs[k + 1..], abbrev)
  {
    assert specs[k..][0] == specs[k] && specs[k..][1..] == specs[k + 1..];
  }

  /** Refspecs that all normalise and none of which matches are passed over one by one. */
  lemma {:induction false} PassedOver(remote: string, name: string, specs: seq<string>, abbrev: string -> Answer, k: nat)
    requires k <= |specs|
    requires forall j :: 0 <= j < k ==> Normalize(specs[j]).Some? && !HasPrefix(name, Normalize(specs[j]).value.src)
    ensures Resolve(remote, name, specs, abbrev) == Resolve(remote, name, specs[k..], abbrev)
    decreases k
  {
    if k == 0 {
      assert specs[0..] == specs;
    } else {
      var j := k - 1;
      PassedOver(remote, name, specs, abbrev, j);
      assert Normalize(specs[j]).Some? && !HasPrefix(name, Normalize(specs[j]).value.src);
      ResolveFrom(remote, name, specs, abbrev, j);
      assert specs[j + 1..] == specs[k..];
    }
  }

  /**
    The first refspec that matches decides: when the refspecs before index
    `k` all normalise and none matches, and refspec `k` matches, the outcome
    is git's answer for its rewrite of the ref.
   */
  lemma FirstMatchWins(remote: string, name: string, specs: seq<string>, abbrev: string -> Answer, k: nat)
    requires k < |specs| && Normalize(specs[k]).Some? && HasPrefix(name, Normalize(specs[k]).value.src)
    requires forall j :: 0 <= j < k ==> Normalize(specs[j]).Some? && !HasPrefix(name, Normalize(specs[j]).value.src)
    ensures Resolve(remote, name, specs, abbrev) == Answered(abbrev(Rewrite(Normalize(specs[k]).value, name)))
  {
    PassedOver(remote, name, specs, abbrev, k);
    ResolveFrom(remote, name, specs, abbrev, k);
  }

  /** With every refspec well formed and none matching, the outcome is the "does not fetch" error. */
  lemma {:induction false} NoMatchFails(remote: string, name: string, specs: seq<string>, abbrev: string -> Answer)
    requires forall j :: 0 <= j < |specs| ==> Normalize(specs[j]).Some? && !HasPrefix(name, Normalize(specs[j]).value.src)
    ensures Resolve(remote, name, specs, abbrev) == Failed(NotFetched(remote, name))
    decreases |specs|
  {
    if specs != [] {
      assert forall j :: 0 <= j < |specs| - 1 ==> specs[1..][j] == specs[j + 1];
      NoMatchFails(remote, name, specs[1..], abbrev);
    }
  }

  /** Refspec `k` matches the ref and git names the rewritten ref `b`. */
  predicate MatchesAt(name: string, specs: seq<string>, abbrev: string -> Answer, k: int, b: string)
  {
    && 0 <= k < |specs|
    && Normalize(specs[k]).Some?
    && HasPrefix(name, Normalize(specs[k]).value.src)
    && abbrev(Rewrite(Normalize(specs[k]).value, name)) == Output(b)
  }

  /** A branch is only ever found through some matching refspec and git's answer for its rewrite. */
  lemma {:induction false} TrackedFromMatch(remote: string, name: string, specs: seq<string>, abbrev: string -> Answer)
    requires Resolve(remote, name, specs, abbrev).Tracked?
    ensures exists k :: MatchesAt(name, specs, abbrev, k, Resolve(remote, name, specs, abbrev).branch)
    decreases |specs|
  {
    var b := Resolve(remote, name, specs, abbrev).branch;
    ResolveFrom(remote, name, specs, abbrev, 0);
    assert specs[0..] == specs;
    if HasPrefix(name, Normalize(specs[0]).value.src) {
      assert MatchesAt(name, specs, abbrev, 0, b);
    } else {
      TrackedFromMatch(remote, name, specs[1..], abbrev);
      var k :| MatchesAt(name, specs[1..], abbrev, k, b);
      assert specs[1..][k] == specs[k + 1];
      assert MatchesAt(name, specs, abbrev, k + 1, b);
    }
  }

  /**
    A wildcard refspec maps every ref under its source prefix to the same
    rest under its destination prefix. With `refs/heads/` and
    `refs/remotes/origin/`, as `git clone` sets up, the branch
    `refs/heads/B` maps to `refs/remotes/origin/B`.
   */
  lemma WildcardMaps(remote: string, forced: bool, f: string, l: string, rest: string, abbrev: string -> Answer)
    requires ':' !in f && !Forced(f + "*")
    ensures Resolve(remote, f + rest, [(if forced then "+" else "") + (f + "*:" + l + "*")], abbrev)
         == Answered(abbrev(l + rest))
  {
    var spec := f + "*:" + l + "*";
    var line := (if forced then "+" else "") + spec;
    assert Normalize(line) == Some(Fetchspec(f, l)) by {
      NormalizeWildcard(f, l);
      if forced {
        assert !Forced(spec) by { assert spec[0] == (f + "*")[0]; }
        NormalizeForced(spec);
      } else {
        assert line == spec;
      }
    }
    var name := f + rest;
    assert HasPrefix(name, f) by { assert name[..|f|] == f; }
    assert Rewrite(Fetchspec(f, l), name) == l + rest by { assert name[|f|..] == rest; }
    ResolveFrom(remote, name, [line], abbrev, 0);
    assert [line][0..] == [line];
  }

  // ------------------------------------------- refspecs without a colon

  /**
    A configured fetch refspec with no `:` (git accepts `refs/heads/main`,
    which fetches without storing, and negative refspecs `^refs/...`) stops
    the lookup with a panic instead of being passed over, whenever the
    refspecs before it are passed over.
   */
  lemma ColonlessSpecPanics(remote: string, name: string, specs: seq<string>, abbrev: string -> Answer, k: nat)
    requires k < |specs| && Normalize(specs[k]).None?
    requires forall j :: 0 <= j < k ==> Normalize(specs[j]).Some? && !HasPrefix(name, Normalize(specs[j]).value.src)
    ensures Resolve(remote, name, specs, abbrev) == Panic
  {
    PassedOver(remote, name, specs, abbrev, k);
    ResolveFrom(remote, name, specs, abbrev, k);
  }

  /** The configuration of the finding: a plain refspec listed before the usual wildcard one. */
  lemma PlainRefspecPanics(remote: string, abbrev: string -> Answer)
    ensures Resolve(remote, "refs/heads/topic", ["refs/heads/main", "+refs/heads/*:refs/remotes/origin/*"], abbrev) == Panic
  {
    assert ':' !in Unforced("refs/heads/main");
    ColonlessSpecPanics(remote, "refs/heads/topic", ["refs/heads/main", "+refs/heads/*:refs/remotes/origin/*"], abbrev, 0);
  }

  /** The lookup with refspecs lacking a `:` passed over: they store no remote-tracking branch. */
  function ResolveSkipping(remote: string, name: string, specs: seq<string>, abbrev: string -> Answer): (r: Lookup)
    ensures r != Panic
    decreases |specs|
  {
    if specs == [] then Failed(NotFetched(remote, name))
    else match Normalize(specs[0])
      case None => ResolveSkipping(remote, name, specs[1..], abbrev)
      case Some(fs) =>
        if HasPrefix(name, fs.src) then Answered(abbrev(Rewrite(fs, name)))
        else ResolveSkipping(remote, name, specs[1..], abbrev)
  }

  /** The corrected lookup from refspec `k` on: a colon-less refspec passes to `k + 1` like one that does not match. */
  lemma SkippingFrom(remote: string, name: string, specs: seq<string>, abbrev: string -> Answer, k: nat)
    requires k < |specs|
    ensures Normalize(specs[k]).None? ==>
              ResolveSkipping(remote, name, specs[k..], abbrev) == ResolveSkipping(remote, name, specs[k + 1..], abbrev)
    ensures Normalize(specs[k]).Some? && HasPrefix(name, Normalize(specs[k]).value.src) ==>
              ResolveSkipping(remote, name, specs[k..], abbrev) == Answered(abbrev(Rewrite(Normalize(specs[k]).value, name)))
    ensures Normalize(specs[k]).Some? && !HasPrefix(name, Normalize(specs[k]).value.src) ==>
              ResolveSkipping(remote, name, specs[k..], abbrev) == ResolveSkipping(remote, name, specs[k + 1..], abbrev)
  {
    assert specs[k..][0] == specs[k] && specs[k..][1..] == specs[k + 1..];
  }

  /** Passing over colon-less refspecs changes nothing whenever the lookup as written does not panic. */
  lemma {:induction false} SkippingAgrees(remote: string, name: string, specs: seq<string>, abbrev: string -> Answer)
    requires Resolve(remote, name, specs, abbrev) != Panic
    ensures ResolveSkipping(remote, name, specs, abbrev) == Resolve(remote, name, specs, abbrev)
    decreases |specs|
  {
    if specs != [] && Normalize(specs[0]).Some? && !HasPrefix(name, Normalize(specs[0]).value.src) {
      SkippingAgrees(remote, name, specs[1..], abbrev);
    }
  }
}
