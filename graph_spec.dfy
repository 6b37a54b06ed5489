/**
  The state of git-greb's branch graph as values, and what `add` and `remove`
  do to it. `direct` maps each branch to the one name it tracks (the empty
  string when it tracks nothing); `reverse` maps a tracked name to the set of
  branches that track it. The class in module BranchGraph keeps these two maps
  as fields and is proved against the functions here.
 */
module GraphSpec {

  type Direct = map<string, string>
  type Reverse = map<string, set<string>>

  /** `g.direct[x]`: the tracked name, or the empty string for a missing key. */
  function Target(d: Direct, x: string): string
  {
    if x in d then d[x] else ""
  }

  /** `g.reverse[t]` ranged over: the branches tracking `t` (none for a missing key). */
  function Tracking(r: Reverse, t: string): set<string>
  {
    if t in r then r[t] else {}
  }

  /**
    The two maps describe the same edges: `b` is in the reverse set of `t`
    exactly when `b` tracks `t`.
   */
  ghost predicate Consistent(d: Direct, r: Reverse)
  {
    && (forall b :: b in d ==> d[b] in r && b in r[d[b]])
    && (forall t, b :: t in r && b in r[t] ==> b in d && d[b] == t)
  }

  /** The reverse index after `add(b, t)`: `b` joins the set of `t`, created if missing. */
  function AddReverse(r: Reverse, b: string, t: string): (r': Reverse)
    ensures r'.Keys == r.Keys + {t}
    ensures b in r'[t] && r'[t] - {b} == Tracking(r, t) - {b}
    ensures forall u :: u in r && u != t ==> r'[u] == r[u]
  {
    r[t := Tracking(r, t) + {b}]
  }

  /**
    `add` keeps the two maps consistent exactly when `b` had no tracking entry
    or already tracked `t`: otherwise `b` stays in the reverse set of its
    previous target.
   */
  lemma AddConsistent(d: Direct, r: Reverse, b: string, t: string)
    requires Consistent(d, r)
    ensures Consistent(d[b := t], AddReverse(r, b, t)) <==> (b !in d || d[b] == t)
  {
    var d', r' := d[b := t], AddReverse(r, b, t);
    if b in d && d[b] != t {
      assert d[b] in r' && b in r'[d[b]] && d'[b] != d[b];
    } else {
      forall u, c | u in r' && c in r'[u] ensures c in d' && d'[c] == u {
        if u != t || c != b {
          assert u in r && c in r[u];
        }
      }
    }
  }

  /** A second `add(b, t)` with the same arguments changes nothing. */
  lemma AddIdempotent(d: Direct, r: Reverse, b: string, t: string)
    ensures d[b := t][b := t] == d[b := t]
    ensures AddReverse(AddReverse(r, b, t), b, t) == AddReverse(r, b, t)
  {
    var once := AddReverse(r, b, t);
    assert Tracking(once, t) + {b} == Tracking(r, t) + {b};
  }

  /** The reverse index once lines 67-68 of `remove(x)` have run, `t` being the old target of `x`. */
  function Detached(r: Reverse, x: string, t: string): (r': Reverse)
    ensures r'.Keys == r.Keys - {x}
    ensures t in r' ==> r'[t] == r[t] - {x}
    ensures forall u :: u in r' && u != t ==> r'[u] == r[u]
  {
    var r1 := r - {x};
    if t in r1 then r1[t := r1[t] - {x}] else r1
  }

  /** The direct map after `remove(x)`: `x` is gone and what tracked it now tracks its target. */
  function RemovedDirect(d: Direct, r: Reverse, x: string): (d': Direct)
    ensures forall b :: b in d' <==> (b in d && b != x) || b in Tracking(r, x)
    ensures forall b :: b in Tracking(r, x) ==> d'[b] == Target(d, x)
    ensures forall b :: b in d && b != x && b !in Tracking(r, x) ==> d'[b] == d[b]
  {
    (d - {x}) + map b | b in Tracking(r, x) :: Target(d, x)
  }

  /** The reverse map after `remove(x)`. */
  function RemovedReverse(d: Direct, r: Reverse, x: string): (r': Reverse)
    ensures Tracking(r, x) != {} ==> Tracking(r, x) <= Tracking(r', Target(d, x))
    ensures forall u :: u != x && u != Target(d, x) ==> Tracking(r', u) == Tracking(r, u)
  {
    var t, down := Target(d, x), Tracking(r, x);
    var r2 := Detached(r, x, t);
    if down == {} then r2 else r2[t := Tracking(r2, t) + down]
  }

  /** The direct map after `add(b, t)` for each `b` of `bs` in turn. */
  function AddEach(d: Direct, bs: seq<string>, t: string): Direct
  {
    if bs == [] then d else AddEach(d, bs[..|bs| - 1], t)[bs[|bs| - 1] := t]
  }

  /** The reverse map after `add(b, t)` for each `b` of `bs` in turn. */
  function AddEachReverse(r: Reverse, bs: seq<string>, t: string): Reverse
  {
    if bs == [] then r else AddReverse(AddEachReverse(r, bs[..|bs| - 1], t), bs[|bs| - 1], t)
  }

  /** Adding a list of branches under one name: each of them now tracks it. */
  lemma {:induction false} AddEachIs(d: Direct, bs: seq<string>, t: string)
    ensures AddEach(d, bs, t) == d + map b | b in bs :: t
    decreases |bs|
  {
    if bs != [] {
      var front, last := bs[..|bs| - 1], bs[|bs| - 1];
      AddEachIs(d, front, t);
      assert forall b :: b in bs <==> b in front || b == last;
    }
  }

  /** Adding a non-empty list of branches under one name: its reverse set gains them all. */
  lemma {:induction false} AddEachReverseIs(r: Reverse, bs: seq<string>, t: string)
    requires bs != []
    ensures AddEachReverse(r, bs, t) == r[t := Tracking(r, t) + set b | b in bs]
    decreases |bs|
  {
    var front, last := bs[..|bs| - 1], bs[|bs| - 1];
    assert (set b | b in bs) == (set b | b in front) + {last} by {
      assert forall b :: b in bs <==> b in front || b == last;
    }
    if front != [] {
      AddEachReverseIs(r, front, t);
      var prev := AddEachReverse(r, front, t);
      assert Tracking(prev, t) + {last} == Tracking(r, t) + set b | b in bs;
      assert AddEachReverse(r, bs, t) == prev[t := Tracking(prev, t) + {last}];
    } else {
      assert AddEachReverse(r, front, t) == r;
      assert (set b | b in bs) == {last};
    }
  }

  /**
    `remove(x)` is the deletions of lines 66-68 followed by `add(b, t)` for
    every branch `b` that tracked `x`, in any order, `t` being the old target.
   */
  lemma RemoveByAdds(d: Direct, r: Reverse, x: string, bs: seq<string>)
    requires forall b :: b in bs <==> b in Tracking(r, x)
    ensures AddEach(d - {x}, bs, Target(d, x)) == RemovedDirect(d, r, x)
    ensures AddEachReverse(Detached(r, x, Target(d, x)), bs, Target(d, x)) == RemovedReverse(d, r, x)
  {
    var t := Target(d, x);
    AddEachIs(d - {x}, bs, t);
    assert (map b | b in bs :: t) == map b | b in Tracking(r, x) :: t;
    if bs != [] {
      AddEachReverseIs(Detached(r, x, t), bs, t);
      assert (set b | b in bs) == Tracking(r, x);
    } else {
      assert Tracking(r, x) == {};
    }
  }

  /**
    When `x` does not track itself and no branch tracking `x` is `x`, removal
    leaves no trace of `x` in the reverse index, neither as a key nor in the
    set of its old target.
   */
  lemma RemoveDetaches(d: Direct, r: Reverse, x: string)
    requires Target(d, x) != x && x !in Tracking(r, x)
    ensures x !in RemovedDirect(d, r, x)
    ensures x !in RemovedReverse(d, r, x)
    ensures x !in Tracking(RemovedReverse(d, r, x), Target(d, x))
  {
  }

  /** Removing a branch that does not track itself keeps the two maps consistent. */
  lemma RemoveConsistent(d: Direct, r: Reverse, x: string)
    requires Consistent(d, r) && Target(d, x) != x
    ensures Consistent(RemovedDirect(d, r, x), RemovedReverse(d, r, x))
  {
    var t, down := Target(d, x), Tracking(r, x);
    var d', r' := RemovedDirect(d, r, x), RemovedReverse(d, r, x);
    forall b | b in d' ensures d'[b] in r' && b in r'[d'[b]] {
      if b in down {
        assert d'[b] == t;
      } else {
        assert b in d && b != x && d'[b] == d[b];
      }
    }
    forall u, c | u in r' && c in r'[u] ensures c in d' && d'[c] == u {
      if u == t && c in down {
      } else {
        assert u in r && c in r[u] && u != x;
      }
    }
  }

  /**
    Removing a branch that tracks itself gives back the same graph: line 71
    re-adds it along with everything else that tracked it.
   */
  lemma RemoveSelfTrackingKeepsGraph(d: Direct, r: Reverse, x: string)
    requires Consistent(d, r) && x in d && d[x] == x
    ensures RemovedDirect(d, r, x) == d
    ensures RemovedReverse(d, r, x) == r
  {
    var down := Tracking(r, x);
    assert x in down;
    assert RemovedDirect(d, r, x) == d;
    var r1 := r - {x};
    assert Detached(r, x, x) == r1;
    assert Tracking(r1, x) + down == down;
    assert r1[x := down] == r;
  }
}
