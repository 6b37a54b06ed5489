/**
  The `graph` type of graph.go: two maps updated in place by `add` and
  `remove`, read by `sort`, `toText` and `toDot`. Each method is proved
  against the value-level description in GraphSpec, GraphOrder and
  GraphRender. A Go `range` over a map visits its keys in an order the
  program does not control; the loops here pick the next key with `:|`, so
  every contract holds for every visiting order.
 */
module BranchGraph {
  import opened TextOrder
  import opened GraphSpec
  import opened GraphOrder
  import opened GraphRender

  /** The elements of `s` in some order, each once: a `range` over a set appending to a slice. */
  method Collect(s: set<string>) returns (r: seq<string>)
    ensures Distinct(r) && multiset(r) == multiset(s)
    ensures forall b :: b in r <==> b in s
  {
    r := [];
    var todo := s;
    while todo != {}
      invariant todo <= s && Distinct(r)
      invariant forall b :: b in r ==> b in s && b !in todo
      invariant multiset(r) + multiset(todo) == multiset(s)
      decreases |todo|
    {
      var b :| b in todo;
      assert multiset(todo) == multiset(todo - {b}) + multiset{b};
      r := r + [b];
      todo := todo - {b};
    }
    forall b | b in s ensures b in r {
      assert b in multiset(s);
    }
  }

  /** The sorted key list holds exactly the keys of `d`. */
  lemma SortedKeys(d: Direct, keys: seq<string>)
    requires keys == SortedOf(multiset(d.Keys))
    ensures forall k :: k in keys <==> k in d
    ensures DotText(d) == Digraph(d, keys)
  {
    assert forall k :: k in keys <==> k in multiset(keys);
  }

  /** What `toText` gathers before sorting determines the children it prints. */
  lemma ChildrenListed(d: Direct, r: Reverse, branch: string, listed: multiset<string>)
    requires branch == "" ==> listed == multiset(Tracking(r, branch)) + multiset(Roots(d, r))
    requires branch != "" ==> listed == multiset(Tracking(r, branch))
    ensures SortedOf(listed) == Children(d, r, branch)
  {
  }

  class Graph {
    /** Each branch and the name it tracks (empty when it tracks nothing). */
    var direct: Direct
    /** Each tracked name and the branches that track it. */
    var reverse: Reverse

    /** `newGraph`: both maps empty. */
    constructor ()
      ensures direct == map[] && reverse == map[]
    {
      direct := map[];
      reverse := map[];
    }

    /** `add`: `branch` now tracks `tracking` and joins its reverse set. */
    method Add(branch: string, tracking: string)
      modifies this
      ensures direct == old(direct)[branch := tracking]
      ensures reverse == AddReverse(old(reverse), branch, tracking)
    {
      direct := direct[branch := tracking];
      if tracking in reverse {
        reverse := reverse[tracking := reverse[tracking] + {branch}];
      } else {
        assert Tracking(reverse, tracking) + {branch} == {branch};
        reverse := reverse[tracking := {branch}];
      }
    }

    /** The first loop of `sort`: a copy of `direct` without the branches that track nothing. */
    method PendingCopy() returns (work: Direct)
      ensures work == Pending(direct)
    {
      work := map[];
      var todo := direct.Keys;
      while todo != {}
        invariant todo <= direct.Keys
        invariant forall b :: b in work <==> b in direct && b !in todo && direct[b] != ""
        invariant forall b :: b in work ==> work[b] == direct[b]
        decreases |todo|
      {
        var b :| b in todo;
        if direct[b] != "" {
          work := work[b := direct[b]];
        }
        todo := todo - {b};
      }
    }

    /**
      `sort`: repeatedly emits every pending branch whose tracked name is not
      pending any more, until a pass over the pending map removes nothing.
     */
    method Sort() returns (branches: seq<string>)
      ensures SortOrder(Pending(direct), branches)
    {
      var work := PendingCopy();
      ghost var p := work;

      branches := [];
      EmittingStart(p);
      while true
        invariant Emitting(p, work, branches)
        decreases |work|
      {
        var l := |work|;
        ghost var before := |branches|;
        ghost var work0 := work;
        var pass := work.Keys;
        while pass != {}
          invariant pass <= work.Keys
          invariant Emitting(p, work, branches)
          invariant |work| + |branches| == l + before && |branches| >= before
          invariant |branches| == before ==> work == work0
          invariant |branches| == before ==> forall b :: b in work && b !in pass ==> work[b] in work
          decreases |pass|
        {
          var b :| b in pass;
          pass := pass - {b};
          if work[b] in work {
            // the branch depends on another pending branch
            continue;
          }
          EmitOne(p, work, branches, b);
          branches := branches + [b];
          work := work - {b};
        }
        if |work| == l {
          EmittingDone(p, work, branches);
          break;
        }
      }
    }

    /**
      `remove`: deletes `branch` and makes every branch that tracked it track
      what it tracked. Returns that name and the re-attached branches.
     */
    method Remove(branch: string) returns (tracking: string, branches: seq<string>)
      modifies this
      ensures tracking == Target(old(direct), branch)
      ensures Distinct(branches) && forall b :: b in branches <==> b in Tracking(old(reverse), branch)
      ensures direct == RemovedDirect(old(direct), old(reverse), branch)
      ensures reverse == RemovedReverse(old(direct), old(reverse), branch)
    {
      tracking := Target(direct, branch);
      branches := Collect(Tracking(reverse, branch));

      direct := direct - {branch};
      reverse := reverse - {branch};
      if tracking in reverse {
        reverse := reverse[tracking := reverse[tracking] - {branch}];
      }
      ghost var d1, r1 := direct, reverse;
      assert r1 == Detached(old(reverse), branch, tracking);

      for i := 0 to |branches|
        invariant direct == AddEach(d1, branches[..i], tracking)
        invariant reverse == AddEachReverse(r1, branches[..i], tracking)
      {
        assert branches[..i + 1][..i] == branches[..i];
        Add(branches[i], tracking);
      }
      assert branches[..|branches|] == branches;
      RemoveByAdds(old(direct), old(reverse), branch, branches);
    }

    /**
      The names `toText` lists under `branch` before sorting them: the
      branches tracking it and, at the top level, every tracked name that has
      no tracking entry of its own.
     */
    method ListChildren(branch: string) returns (branches: seq<string>)
      ensures branch == "" ==> multiset(branches) == multiset(Tracking(reverse, branch)) + multiset(Roots(direct, reverse))
      ensures branch != "" ==> multiset(branches) == multiset(Tracking(reverse, branch))
    {
      branches := Collect(Tracking(reverse, branch));
      if branch == "" {
        var todo := reverse.Keys;
        while todo != {}
          invariant todo <= reverse.Keys
          invariant multiset(branches) + multiset(todo * Roots(direct, reverse))
                 == multiset(Tracking(reverse, branch)) + multiset(Roots(direct, reverse))
          decreases |todo|
        {
          var b :| b in todo;
          assert todo * Roots(direct, reverse) == (todo - {b}) * Roots(direct, reverse) + (if b in Roots(direct, reverse) then {b} else {});
          if b != "" {
            if b !in direct {
              branches := branches + [b];
            }
          }
          todo := todo - {b};
        }
        assert todo * Roots(direct, reverse) == {};
      }
    }

    /**
      `toText`: the names listed under `branch`, sorted, each on its own line
      indented `count` times and followed by its own subtree one level deeper.
      `rank` is a ghost witness that the recursion ends.
     */
    method ToText(branch: string, indent: string, count: nat, ghost rank: map<string, nat>) returns (s: string)
      requires Layered(direct, reverse, rank) && branch in rank
      ensures s == Render(Forest(direct, reverse, rank, branch, count), indent)
      decreases rank[branch]
    {
      var branches := ListChildren(branch);
      ghost var listed := multiset(branches);
      branches := SortStrings(branches);
      ChildrenListed(direct, reverse, branch, listed);
      GroveUpToAll(direct, reverse, rank, branch, count);

      s := "";
      for i := 0 to |branches|
        invariant s == Render(GroveUpTo(direct, reverse, rank, branches, i, count, rank[branch]), indent)
      {
        var b := branches[i];
        assert b in rank && rank[b] < rank[branch];
        ghost var before := s;
        s := s + TextLine(Line(count, b), indent);
        var sub := ToText(b, indent, count + 1, rank);
        s := s + sub;
        TextStep(direct, reverse, rank, branches, i, count, rank[branch], indent, before, sub);
      }
    }

    /** `toDot`: a digraph with one line per branch, in sorted order, with its edge when it tracks a name. */
    method ToDot() returns (s: string)
      ensures s == DotText(direct)
    {
      var branches := Collect(direct.Keys);
      branches := SortStrings(branches);
      SortedKeys(direct, branches);
      s := "digraph {\n";
      for i := 0 to |branches|
        invariant s == "digraph {\n" + DotLines(direct, branches[..i])
      {
        var b := branches[i];
        var t := direct[b];
        ghost var before := DotLines(direct, branches[..i]);
        if t == "" {
          s := s + ("  \"" + b + "\";\n");
        } else {
          s := s + ("  \"" + b + "\" -> \"" + t + "\";\n");
        }
        DotLinesStep(direct, branches, i);
        ConcatAssoc("digraph {\n", before, DotLine(b, t));
      }
      s := s + "}\n";
      assert branches[..|branches|] == branches;
      assert s == Digraph(direct, branches);
    }
  }
}
