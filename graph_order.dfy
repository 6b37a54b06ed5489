/**
  What `graph.sort` promises about its output, stated over the pending map:
  the branches that track a non-empty name, each with its tracked name. The
  layered loop itself is method BranchGraph.Graph.Sort; the lemmas here show
  that its output lists every pending branch when tracking has no cycle, and
  leaves out every branch on a cycle or behind one.
 */
module GraphOrder {
  import opened GraphSpec

  /** The working copy `sort` starts from: entries with a non-empty tracked name. */
  function Pending(d: Direct): Direct
  {
    map b | b in d && d[b] != "" :: d[b]
  }

  /** No branch appears twice. */
  predicate Distinct(s: seq<string>)
  {
    forall i, j :: 0 <= i < j < |s| ==> s[i] != s[j]
  }

  /**
    The output of `sort` for pending map `p`:
    only pending branches, each at most once; a branch whose tracked name is
    itself pending comes after it; and every pending branch left out tracks a
    pending branch that is left out too (the pass that made no progress).
   */
  ghost predicate SortOrder(p: Direct, out: seq<string>)
  {
    && (forall i :: 0 <= i < |out| ==> out[i] in p)
    && Distinct(out)
    && AfterTracked(p, out)
    && (forall b :: b in p && b !in out ==> p[b] in p && p[b] !in out)
  }

  /** Each listed branch whose tracked name is pending is listed after that name. */
  ghost predicate AfterTracked(p: Direct, out: seq<string>)
  {
    forall i :: 0 <= i < |out| && out[i] in p && p[out[i]] in p ==> p[out[i]] in out[..i]
  }

  /**
    Part-way through `sort`: `work` is what is still pending, `out` what has
    been emitted, and each emitted branch came after the pending branch it
    tracks.
   */
  ghost predicate Emitting(p: Direct, work: Direct, out: seq<string>)
  {
    && (forall b :: b in work ==> b in p && work[b] == p[b])
    && (forall b :: b in p ==> (b in work <==> b !in out))
    && (forall i :: 0 <= i < |out| ==> out[i] in p)
    && Distinct(out)
    && AfterTracked(p, out)
  }

  /** Nothing is emitted before the first pass. */
  lemma EmittingStart(p: Direct)
    ensures Emitting(p, p, [])
  {
  }

  /** Emitting a pending branch whose tracked name is no longer pending keeps the order. */
  lemma EmitOne(p: Direct, work: Direct, out: seq<string>, b: string)
    requires Emitting(p, work, out) && b in work && work[b] !in work
    ensures Emitting(p, work - {b}, out + [b])
    ensures |work - {b}| == |work| - 1
  {
    assert (work - {b}).Keys == work.Keys - {b};
    EmitKeepsMembers(p, work, out, b);
    EmitKeepsOrder(p, work, out, b);
  }

  lemma EmitKeepsMembers(p: Direct, work: Direct, out: seq<string>, b: string)
    requires Emitting(p, work, out) && b in work
    ensures forall c :: c in p ==> (c in work - {b} <==> c !in out + [b])
    ensures forall i :: 0 <= i < |out + [b]| ==> (out + [b])[i] in p
    ensures Distinct(out + [b])
  {
    var out' := out + [b];
    forall i, j | 0 <= i < j < |out'| ensures out'[i] != out'[j] {
      if j == |out| { assert out'[i] == out[i]; }
    }
  }

  lemma EmitKeepsOrder(p: Direct, work: Direct, out: seq<string>, b: string)
    requires Emitting(p, work, out) && b in work && work[b] !in work
    ensures AfterTracked(p, out + [b])
  {
    var out' := out + [b];
    forall i | 0 <= i < |out'| && out'[i] in p && p[out'[i]] in p ensures p[out'[i]] in out'[..i] {
      if i < |out| {
        assert out'[..i] == out[..i];
      } else {
        assert out'[..i] == out;
      }
    }
  }

  /** A pass that emits nothing leaves every pending branch behind a pending one: `sort` is done. */
  lemma EmittingDone(p: Direct, work: Direct, out: seq<string>)
    requires Emitting(p, work, out)
    requires forall b :: b in work ==> work[b] in work
    ensures SortOrder(p, out)
  {
  }

  /** Tracking has no cycle among pending branches: ranks fall along every pending edge. */
  ghost predicate Ranked(p: Direct, rank: map<string, nat>)
  {
    forall b :: b in p ==> b in rank && (p[b] in p ==> p[b] in rank && rank[p[b]] < rank[b])
  }

  lemma {:induction false} EmittedByRank(p: Direct, out: seq<string>, rank: map<string, nat>, b: string)
    requires SortOrder(p, out) && Ranked(p, rank) && b in p
    ensures b in out
    decreases rank[b]
  {
    if b !in out {
      EmittedByRank(p, out, rank, p[b]);
    }
  }

  /** Without a cycle, `sort` lists every branch that tracks a non-empty name. */
  lemma SortCompleteWhenAcyclic(p: Direct, out: seq<string>, rank: map<string, nat>)
    requires SortOrder(p, out) && Ranked(p, rank)
    ensures forall b :: b in p <==> b in out
  {
    forall b | b in p ensures b in out {
      EmittedByRank(p, out, rank, b);
    }
  }

  /** The name reached from `x` by following pending tracking `k` times (stopping outside `p`). */
  function Walk(p: Direct, x: string, k: nat): string
    decreases k
  {
    if k == 0 || x !in p then x else Walk(p, p[x], k - 1)
  }

  lemma {:induction false} WalkSplit(p: Direct, x: string, m: nat, n: nat)
    ensures Walk(p, x, m + n) == Walk(p, Walk(p, x, m), n)
    decreases m
  {
    if m > 0 && x in p {
      WalkSplit(p, p[x], m - 1, n);
    }
  }

  /** Position of a listed branch. */
  function IndexOf(s: seq<string>, x: string): (i: nat)
    requires x in s
    ensures i < |s| && s[i] == x && x !in s[..i]
  {
    if s[0] == x then 0 else 1 + IndexOf(s[1..], x)
  }

  /**
    Following pending tracking from a listed branch for `k` steps stays within
    the output and moves at least `k` positions towards its start.
   */
  lemma {:induction false} WalkEmittedEarlier(p: Direct, out: seq<string>, x: string, k: nat)
    requires AfterTracked(p, out) && x in out
    requires forall j :: 0 <= j <= k ==> Walk(p, x, j) in p
    ensures Walk(p, x, k) in out && IndexOf(out, Walk(p, x, k)) + k <= IndexOf(out, x)
    decreases k
  {
    if k > 0 {
      assert x in p && Walk(p, x, 1) == p[x] by { assert Walk(p, x, 0) == x; }
      StepBack(p, out, x);
      forall j | 0 <= j <= k - 1 ensures Walk(p, p[x], j) in p {
        assert Walk(p, x, j + 1) == Walk(p, p[x], j);
      }
      WalkEmittedEarlier(p, out, p[x], k - 1);
      assert Walk(p, x, k) == Walk(p, p[x], k - 1);
    }
  }

  /** A listed branch whose tracked name is pending comes after that name. */
  lemma StepBack(p: Direct, out: seq<string>, x: string)
    requires AfterTracked(p, out) && x in out && x in p && p[x] in p
    ensures p[x] in out && IndexOf(out, p[x]) < IndexOf(out, x)
  {
    var i := IndexOf(out, x);
    assert p[x] in out[..i];
    var i' :| 0 <= i' < i && out[i'] == p[x];
    var q := IndexOf(out, p[x]);
    assert out[q] == out[i'];
  }

  /**
    A branch on a tracking cycle, or behind one, is never listed: from `b` the
    walk stays pending and, after `m` steps, returns to where it was every `n`
    steps. Self-tracking branches are the case `m == 0`, `n == 1`.
   */
  lemma SortOmitsCycles(p: Direct, out: seq<string>, b: string, m: nat, n: nat)
    requires SortOrder(p, out) && n >= 1
    requires forall j :: 0 <= j <= m + n ==> Walk(p, b, j) in p
    requires Walk(p, b, m + n) == Walk(p, b, m)
    ensures b !in out
  {
    if b in out {
      WalkEmittedEarlier(p, out, b, m);
      var c := Walk(p, b, m);
      forall j | 0 <= j <= n ensures Walk(p, c, j) in p {
        WalkSplit(p, b, m, j);
      }
      WalkEmittedEarlier(p, out, c, n);
      WalkSplit(p, b, m, n);
    }
  }

  /** The list from last to first. */
  function Reversed(s: seq<string>): (r: seq<string>)
    ensures |r| == |s|
  {
    if s == [] then [] else [s[|s| - 1]] + Reversed(s[..|s| - 1])
  }

  /** Position `k` of the reversed list holds position `|s| - 1 - k` of the list. */
  lemma {:induction false} ReversedIndex(s: seq<string>, k: nat)
    requires k < |s|
    ensures Reversed(s)[k] == s[|s| - 1 - k]
    decreases |s|
  {
    if k > 0 {
      ReversedIndex(s[..|s| - 1], k - 1);
    }
  }

  /**
    Walking the output of `sort` backwards, as the deletion loop of `greb`
    does, reaches every branch before the pending branch it tracks.
   */
  lemma ReversedTrackersFirst(p: Direct, out: seq<string>)
    requires AfterTracked(p, out)
    ensures forall i :: 0 <= i < |out| && Reversed(out)[i] in p && p[Reversed(out)[i]] in p ==>
              exists j :: i < j < |out| && Reversed(out)[j] == p[Reversed(out)[i]]
  {
    forall i | 0 <= i < |out| && Reversed(out)[i] in p && p[Reversed(out)[i]] in p
      ensures exists j :: i < j < |out| && Reversed(out)[j] == p[Reversed(out)[i]]
    {
      var k := |out| - 1 - i;
      ReversedIndex(out, i);
      var j := TrackedEarlier(p, out, k);
      ReversedIndex(out, |out| - 1 - j);
    }
  }

  /** Where the tracked name of a listed branch is listed, when it is pending. */
  lemma TrackedEarlier(p: Direct, out: seq<string>, k: nat) returns (j: nat)
    requires AfterTracked(p, out) && k < |out| && out[k] in p && p[out[k]] in p
    ensures j < k && out[j] == p[out[k]]
  {
    assert p[out[k]] in out[..k];
    j :| 0 <= j < k && out[..k][j] == p[out[k]];
  }
}
