/**
  What `greb` does to the repository once the graph is sorted: it pulls every
  branch in sort order, checking each out first, and when asked it deletes the
  merged branches in reverse order. Two pieces of state go along: the branch
  checked out now (`current`: at the start whatever git answers for `HEAD`,
  and empty once greb itself has checked out a detached HEAD) and the branch
  to return to at the end (`branch` in `greb`, here `returnTo`). Every git command
  is a parameter: `git` gives the error text of running a command after the
  commands already run, or `None` when it succeeds. The commands that change
  the repository (checkout, pull or rebase, `branch -D`) are only run when
  `-n` (noop) is off, and `ran` lists only those. The `git rev-parse` queries
  of `deleteBranchIfMerged` run even under `-n`; they are inside the `merged`
  parameter. Printing commands is left out.
 */
module Session {
  import opened TextOrder
  import opened Commands
  import opened Flags
  import opened GraphOrder

  /** The error text of running a command after the listed ones, or `None` on success. */
  type Git = (seq<seq<string>>, seq<string>) -> Option<string>

  /** An upstream of a branch: a ref and the remote it comes from (`.` for the local repository). */
  datatype Ref = Ref(name: string, remote: string)

  /** What `deleteBranchIfMerged` finds out from git about a branch. */
  datatype Merge = Merged | Unmerged | Unknown(message: string)

  /** The bookkeeping as a value: the checked-out branch, the branch to return to, the commands run so far. */
  datatype State = State(current: string, returnTo: string, ran: seq<seq<string>>)

  /** A state after an operation, and the error it returned. */
  datatype Step = Step(state: State, err: Option<string>)

  /**
    Running `cmd` unless in noop mode: the command joins the list of commands
    run, and a failure becomes `cmdError`'s text.
   */
  function Exec(st: State, cmd: seq<string>, noop: bool, git: Git): (r: Step)
    ensures r.state.current == st.current && r.state.returnTo == st.returnTo
    ensures noop ==> r == Step(st, None)
    ensures !noop ==> r.state.ran == st.ran + [cmd]
    ensures !noop ==> (r.err.None? <==> git(st.ran, cmd).None?)
    ensures r.err.Some? ==> r.err.value == CommandError(cmd, git(st.ran, cmd).value)
  {
    if noop then Step(st, None)
    else
      var failure := git(st.ran, cmd);
      Step(st.(ran := st.ran + [cmd]), if failure.Some? then Some(CommandError(cmd, failure.value)) else None)
  }

  /** The argument `git checkout` gets: the branch, or `--detach` for no branch. */
  function CheckoutArg(target: string): (arg: string)
    ensures arg != ""
  {
    if target == "" then "--detach" else target
  }

  /** `checkoutBranchIfNeeded` on the state. */
  function Checkout(st: State, target: string, noop: bool, git: Git): (r: Step)
    ensures st.current == target ==> r == Step(st, None)
    ensures r.state.returnTo == st.returnTo
    ensures r.err.None? ==> r.state.current == target
    ensures r.err.Some? ==> r.state.current == st.current
    ensures r.state.ran == st.ran || r.state.ran == st.ran + [["git", "checkout", CheckoutArg(target)]]
  {
    if target == st.current then Step(st, None)
    else
      var s := Exec(st, ["git", "checkout", CheckoutArg(target)], noop, git);
      if s.err.Some? then s else Step(s.state.(current := target), None)
  }

  /** A checkout that went through makes a second one to the same branch do nothing. */
  lemma CheckoutIdempotent(st: State, target: string, noop: bool, git: Git)
    requires Checkout(st, target, noop, git).err.None?
    ensures var s := Checkout(st, target, noop, git).state; Checkout(s, target, noop, git) == Step(s, None)
  {
  }

  /** Checking out runs git exactly when the target differs from the current branch and noop is off. */
  lemma CheckoutRunsGit(st: State, target: string, noop: bool, git: Git)
    ensures Checkout(st, target, noop, git).state.ran
         == if target == st.current || noop then st.ran else st.ran + [["git", "checkout", CheckoutArg(target)]]
  {
  }

  /** In noop mode a checkout cannot fail and always moves to the target. */
  lemma CheckoutNoop(st: State, target: string, git: Git)
    ensures Checkout(st, target, true, git) == Step(st.(current := target), None)
  {
  }

  /**
    `deleteBranch` up to and including `git branch -D` (main.go:649-666): the
    branch to return to is cleared when it is the branch being deleted, and
    when the branch is checked out, the branch to return to (or a detached
    HEAD) is checked out first.
   */
  function Delete(st: State, n: string, noop: bool, git: Git): (r: Step)
    ensures r.state.returnTo == if n == st.returnTo then "" else st.returnTo
    ensures noop ==> r.state.ran == st.ran
  {
    var st1 := if n == st.returnTo then st.(returnTo := "") else st;
    var s2 := if n == st1.current then Checkout(st1, st1.returnTo, noop, git) else Step(st1, None);
    if s2.err.Some? then s2
    else Exec(s2.state, ["git", "branch", "-D", n], noop, git)
  }

  /** A branch deleted without error is neither checked out nor the branch to return to. */
  lemma DeleteMovesAway(st: State, n: string, noop: bool, git: Git)
    requires n != ""
    requires Delete(st, n, noop, git).err.None?
    ensures Delete(st, n, noop, git).state.current != n
    ensures Delete(st, n, noop, git).state.returnTo != n
  {
    var st1 := if n == st.returnTo then st.(returnTo := "") else st;
    if n == st1.current {
      assert st1.returnTo != n;
      assert Checkout(st1, st1.returnTo, noop, git).err.None?;
    }
  }

  /**
    Deleting a branch that is checked out lands on the branch to return to,
    or on a detached HEAD when that is the branch deleted; the `git branch -D`
    comes last.
   */
  lemma DeleteCurrent(st: State, n: string, noop: bool, git: Git)
    requires n == st.current && Delete(st, n, noop, git).err.None?
    ensures Delete(st, n, noop, git).state.current == if n == st.returnTo then "" else st.returnTo
    ensures !noop ==> Last(Delete(st, n, noop, git).state.ran) == ["git", "branch", "-D", n]
  {
    var st1 := if n == st.returnTo then st.(returnTo := "") else st;
    assert Checkout(st1, st1.returnTo, noop, git).err.None?;
  }

  /** Deleting a branch that is not checked out only runs `git branch -D`. */
  lemma DeleteOther(st: State, n: string, noop: bool, git: Git)
    requires n != st.current
    ensures Delete(st, n, noop, git).state.current == st.current
    ensures Delete(st, n, noop, git).state.ran == if noop then st.ran else st.ran + [["git", "branch", "-D", n]]
  {
  }

  /** The last command of a list; empty when no command was run. */
  function Last(cmds: seq<seq<string>>): seq<string>
  {
    if cmds == [] then [] else cmds[|cmds| - 1]
  }

  /**
    The git arguments `pullBranch` chooses (main.go:587-598), or `None` when
    `-c` stops it after the checkout. `upstreams` is the number of upstreams.
   */
  function PullArgs(o: Options, upstreams: nat): (r: Option<seq<string>>)
    ensures r.None? <==> o.checkout
    ensures r.Some? ==> |r.value| == 2 || r.value == ["pull"]
    ensures r.Some? ==> (r.value[0] == "rebase" || "--rebase" in r.value <==> o.rebase || (o.interactive && !o.merge))
    ensures r.Some? && upstreams > 1 && !o.rebase && !o.interactive ==> r.value == ["pull", "--no-rebase"]
  {
    if o.checkout then None
    else if o.rebase then Some(["pull", "--rebase"])
    else if o.merge then Some(["pull", "--no-rebase"])
    else if o.interactive then Some(["rebase", "--interactive"])
    else if upstreams > 1 then Some(["pull", "--no-rebase"])
    else Some(["pull"])
  }

  /**
    Once `assertFlags` has passed, at most one of the flags is set, and the
    pull is the one that flag asks for; with none of them a branch with
    several upstreams is merged and a branch with one is pulled the default way.
   */
  lemma PullArgsOfFlag(o: Options, upstreams: nat)
    requires !TwoSet(ExclusiveFlags(o))
    ensures o.checkout <==> PullArgs(o, upstreams) == None
    ensures o.rebase ==> PullArgs(o, upstreams) == Some(["pull", "--rebase"])
    ensures o.merge ==> PullArgs(o, upstreams) == Some(["pull", "--no-rebase"])
    ensures o.interactive ==> PullArgs(o, upstreams) == Some(["rebase", "--interactive"])
    ensures !o.checkout && !o.rebase && !o.merge && !o.interactive ==>
              PullArgs(o, upstreams) == if upstreams > 1 then Some(["pull", "--no-rebase"]) else Some(["pull"])
  {
    PassedFlagsExclusive(o);
  }

  /** With `-l`, a branch with an upstream from another repository is left alone. */
  predicate SkippedAsRemote(o: Options, upstreams: set<Ref>)
  {
    o.local && exists u :: u in upstreams && u.remote != "."
  }

  /** `pullBranch` on the state, for branch `b` with the given upstreams. */
  function Pull(st: State, b: string, upstreams: set<Ref>, o: Options, git: Git): (r: Step)
    ensures SkippedAsRemote(o, upstreams) ==> r == Step(st, None)
    ensures r.state.returnTo == st.returnTo
  {
    if SkippedAsRemote(o, upstreams) then Step(st, None)
    else
      var s := Checkout(st, b, o.noop, git);
      if s.err.Some? then s
      else match PullArgs(o, |upstreams|)
        case None => s
        case Some(args) => Exec(s.state, ["git"] + args, o.noop, git)
  }

  /**
    A pull that is not skipped leaves the branch checked out when it succeeds,
    and its last command is the pull itself when one is run.
   */
  lemma PullChecksOut(st: State, b: string, upstreams: set<Ref>, o: Options, git: Git)
    requires !SkippedAsRemote(o, upstreams) && Pull(st, b, upstreams, o, git).err.None?
    ensures Pull(st, b, upstreams, o, git).state.current == b
    ensures !o.noop && PullArgs(o, |upstreams|).Some? ==>
              Last(Pull(st, b, upstreams, o, git).state.ran) == ["git"] + PullArgs(o, |upstreams|).value
  {
    assert Checkout(st, b, o.noop, git).err.None?;
  }

  /**
    The pull loop of `greb` (main.go:373-379): each branch in turn, stopping
    at the first error. The branch to return to never changes, and in noop
    mode no pull runs a command or fails.
   */
  function PullEach(st: State, order: seq<string>, upstreamsOf: string -> set<Ref>, o: Options, git: Git): (r: Step)
    ensures r.state.returnTo == st.returnTo
    ensures o.noop ==> r.err == None && r.state.ran == st.ran
    decreases |order|
  {
    if order == [] then Step(st, None)
    else
      var s := Pull(st, order[0], upstreamsOf(order[0]), o, git);
      if s.err.Some? then s else PullEach(s.state, order[1..], upstreamsOf, o, git)
  }

  /** `deleteBranchIfMerged`, with git's verdict on the branch as a parameter. */
  function DeleteIfMerged(st: State, n: string, m: Merge, noop: bool, git: Git): (r: Step)
    ensures m == Unmerged ==> r == Step(st, None)
  {
    match m
    case Unknown(e) => Step(st, Some(e))
    case Unmerged => Step(st, None)
    case Merged => Delete(st, n, noop, git)
  }

  /**
    Deleting the merged branches of `order`, first to last, stopping at the
    first error. The branch to return to is kept or cleared, and in noop mode
    no checkout or `branch -D` is run.
   */
  function DeleteEach(st: State, order: seq<string>, merged: string -> Merge, noop: bool, git: Git): (r: Step)
    ensures r.state.returnTo == st.returnTo || r.state.returnTo == ""
    ensures noop ==> r.state.ran == st.ran
    decreases |order|
  {
    if order == [] then Step(st, None)
    else
      var s := DeleteIfMerged(st, order[0], merged(order[0]), noop, git);
      if s.err.Some? then s else DeleteEach(s.state, order[1..], merged, noop, git)
  }

  /**
    The end of `greb`: the pulls unless `-s`, then the deletions in reverse
    sort order with `-d`. Only a deletion can clear the branch to return to,
    and with `-n` no checkout, pull or `branch -D` is run.
   */
  function Update(st: State, sorted: seq<string>, upstreamsOf: string -> set<Ref>, merged: string -> Merge, o: Options, git: Git): (r: Step)
    ensures r.state.returnTo == st.returnTo || (o.remove && r.state.returnTo == "")
    ensures o.noop ==> r.state.ran == st.ran
  {
    var s := if o.skip then Step(st, None) else PullEach(st, sorted, upstreamsOf, o, git);
    if s.err.Some? || !o.remove then s
    else DeleteEach(s.state, Reversed(sorted), merged, o.noop, git)
  }

  /**
    A run that deletes branches and ends without error is not left on any of
    the branches it deleted, and will not return to one of them.
   */
  lemma {:induction false} DeleteEachMovesAway(st: State, order: seq<string>, merged: string -> Merge, noop: bool, git: Git, n: string)
    requires n != "" && n in order && merged(n) == Merged
    requires DeleteEach(st, order, merged, noop, git).err.None?
    requires forall i :: 0 <= i < |order| ==> order[i] != ""
    ensures DeleteEach(st, order, merged, noop, git).state.current != n
    ensures DeleteEach(st, order, merged, noop, git).state.returnTo != n
    decreases |order|
  {
    var s := DeleteIfMerged(st, order[0], merged(order[0]), noop, git);
    var rest := order[1..];
    assert forall i :: 0 <= i < |rest| ==> rest[i] == order[i + 1];
    if n == order[0] {
      DeleteMovesAway(st, n, noop, git);
      StaysAway(s.state, rest, merged, noop, git, n);
    } else {
      assert n in rest;
      DeleteEachMovesAway(s.state, rest, merged, noop, git, n);
    }
  }

  /**
    A run of `greb -d` that ends without error is not left on a merged branch
    of the sorted list, and will not return to one.
   */
  lemma UpdateMovesAway(st: State, sorted: seq<string>, upstreamsOf: string -> set<Ref>, merged: string -> Merge, o: Options, git: Git, n: string)
    requires o.remove && Update(st, sorted, upstreamsOf, merged, o, git).err.None?
    requires forall i :: 0 <= i < |sorted| ==> sorted[i] != ""
    requires n in sorted && merged(n) == Merged
    ensures Update(st, sorted, upstreamsOf, merged, o, git).state.current != n
    ensures Update(st, sorted, upstreamsOf, merged, o, git).state.returnTo != n
  {
    var s := if o.skip then Step(st, None) else PullEach(st, sorted, upstreamsOf, o, git);
    var back := Reversed(sorted);
    forall i | 0 <= i < |back| ensures back[i] != "" {
      ReversedIndex(sorted, i);
    }
    var j :| 0 <= j < |sorted| && sorted[j] == n;
    ReversedIndex(sorted, |sorted| - 1 - j);
    assert back[|sorted| - 1 - j] == n;
    DeleteEachMovesAway(s.state, back, merged, o.noop, git, n);
  }

  /** The error text Go gives for a command stopped by an interrupt ends in this. */
  predicate Interrupted(e: string)
  {
    var mark := "signal: interrupt";
    |mark| <= |e| && e[|e| - |mark|..] == mark
  }

  /**
    The deferred function of `greb` (main.go:358-372): after a run that ended
    without error, or with an interrupted command, the branch to return to is
    checked out again when there is one. The error of that checkout is
    dropped, so the run's error is returned unchanged.
   */
  function Finish(s: Step, noop: bool, git: Git): (r: Step)
    ensures r.err == s.err && r.state.returnTo == s.state.returnTo
    ensures s.err.Some? && !Interrupted(s.err.value) ==> r == s
    ensures s.state.returnTo == "" ==> r == s
    ensures (s.err.None? || Interrupted(s.err.value)) && s.state.returnTo != "" &&
              Checkout(s.state, s.state.returnTo, noop, git).err.None? ==>
              r.state.current == s.state.returnTo
    ensures r.state.ran == s.state.ran || r.state.ran == s.state.ran + [["git", "checkout", CheckoutArg(s.state.returnTo)]]
  {
    if s.err.Some? && !Interrupted(s.err.value) then s
    else if s.state.returnTo == "" then s
    else Step(Checkout(s.state, s.state.returnTo, noop, git).state, s.err)
  }

  /** A whole run of `greb` from the sort on: the updates, then the deferred checkout. */
  function Greb(st: State, sorted: seq<string>, upstreamsOf: string -> set<Ref>, merged: string -> Merge, o: Options, git: Git): Step
  {
    Finish(Update(st, sorted, upstreamsOf, merged, o, git), o.noop, git)
  }

  /**
    A run of `greb -d` that ends without error finishes on none of the merged
    branches of the sorted list: the deferred checkout only goes back to a
    branch that was not deleted.
   */
  lemma GrebMovesAway(st: State, sorted: seq<string>, upstreamsOf: string -> set<Ref>, merged: string -> Merge, o: Options, git: Git, n: string)
    requires o.remove && Greb(st, sorted, upstreamsOf, merged, o, git).err.None?
    requires forall i :: 0 <= i < |sorted| ==> sorted[i] != ""
    requires n in sorted && merged(n) == Merged
    ensures Greb(st, sorted, upstreamsOf, merged, o, git).state.current != n
  {
    var u := Update(st, sorted, upstreamsOf, merged, o, git);
    UpdateMovesAway(st, sorted, upstreamsOf, merged, o, git, n);
    if u.state.returnTo != "" {
      var c := Checkout(u.state, u.state.returnTo, o.noop, git);
      assert c.state.current == u.state.current || c.state.current == u.state.returnTo;
    }
  }

  /** In noop mode a run that ends without error finishes on the branch to return to, when there is one. */
  lemma NoopGrebReturns(st: State, sorted: seq<string>, upstreamsOf: string -> set<Ref>, merged: string -> Merge, o: Options, git: Git)
    requires o.noop && Update(st, sorted, upstreamsOf, merged, o, git).err.None?
    requires Update(st, sorted, upstreamsOf, merged, o, git).state.returnTo != ""
    ensures Greb(st, sorted, upstreamsOf, merged, o, git).state.current
         == Update(st, sorted, upstreamsOf, merged, o, git).state.returnTo
  {
    var u := Update(st, sorted, upstreamsOf, merged, o, git);
    CheckoutNoop(u.state, u.state.returnTo, git);
  }

  /**
    Once neither checked out nor the branch to return to, a branch stays so
    through later deletions: checkouts only go to the branch to return to or
    to a detached HEAD.
   */
  lemma {:induction false} StaysAway(st: State, order: seq<string>, merged: string -> Merge, noop: bool, git: Git, n: string)
    requires n != "" && st.current != n && st.returnTo != n
    ensures DeleteEach(st, order, merged, noop, git).state.current != n
    ensures DeleteEach(st, order, merged, noop, git).state.returnTo != n
    decreases |order|
  {
    if order != [] {
      var s := DeleteIfMerged(st, order[0], merged(order[0]), noop, git);
      if merged(order[0]) == Merged {
        var st1 := if order[0] == st.returnTo then st.(returnTo := "") else st;
        assert s.state.current == st.current || s.state.current == st1.returnTo;
      }
      if s.err.None? {
        StaysAway(s.state, order[1..], merged, noop, git, n);
      }
    }
  }

  /** The state of one run of `greb` over the sorted branches, updated in place. */
  class Session {
    /** The branch checked out now: git's name for `HEAD` at the start, empty after greb detaches HEAD. */
    var current: string
    /** The branch to check out again at the end; empty for none. */
    var returnTo: string
    /** The checkout, pull, rebase and `branch -D` commands run so far, in order; the `rev-parse` queries are not listed. */
    var ran: seq<seq<string>>

    /** The state as a value. */
    function Snapshot(): State
      reads this
    {
      State(current, returnTo, ran)
    }

    constructor (current: string, returnTo: string)
      ensures Snapshot() == State(current, returnTo, [])
    {
      this.current := current;
      this.returnTo := returnTo;
      ran := [];
    }

    /** Runs `cmd` unless in noop mode; a failure is reported with the command line. */
    method Run(cmd: seq<string>, noop: bool, git: Git) returns (err: Option<string>)
      modifies this
      ensures Step(Snapshot(), err) == Exec(old(Snapshot()), cmd, noop, git)
    {
      err := None;
      if !noop {
        var failure := git(ran, cmd);
        ran := ran + [cmd];
        if failure.Some? {
          var line := CmdArgs(cmd);
          err := Some(line + ": " + failure.value);
        }
      }
    }

    /** `checkoutBranchIfNeeded` (main.go:707-728). */
    method CheckoutBranchIfNeeded(target: string, noop: bool, git: Git) returns (err: Option<string>)
      modifies this
      ensures Step(Snapshot(), err) == Checkout(old(Snapshot()), target, noop, git)
    {
      err := None;
      if target == current {
        return;
      }
      var arg: string;
      if target == "" {
        arg := "--detach";
      } else {
        arg := target;
      }
      err := Run(["git", "checkout", arg], noop, git);
      if err.Some? {
        return;
      }
      current := target;
    }

    /** `deleteBranch` (main.go:649-666), up to the deletion of the branch. */
    method DeleteBranch(n: string, noop: bool, git: Git) returns (err: Option<string>)
      modifies this
      ensures Step(Snapshot(), err) == Delete(old(Snapshot()), n, noop, git)
    {
      if n == returnTo {
        returnTo := "";
      }
      if n == current {
        err := CheckoutBranchIfNeeded(returnTo, noop, git);
        if err.Some? {
          return;
        }
      }
      err := Run(["git", "branch", "-D", n], noop, git);
    }

    /** `pullBranch` (main.go:576-610) for branch `b` with the given upstreams. */
    method PullBranch(b: string, upstreams: set<Ref>, o: Options, git: Git) returns (err: Option<string>)
      modifies this
      ensures Step(Snapshot(), err) == Pull(old(Snapshot()), b, upstreams, o, git)
    {
      err := None;
      if o.local {
        var todo := upstreams;
        while todo != {}
          invariant todo <= upstreams
          invariant forall u :: u in upstreams && u !in todo ==> u.remote == "."
          decreases |todo|
        {
          var u :| u in todo;
          if u.remote != "." {
            assert SkippedAsRemote(o, upstreams);
            return;
          }
          todo := todo - {u};
        }
      }
      err := CheckoutBranchIfNeeded(b, o.noop, git);
      if err.Some? {
        return;
      }
      var args := ["pull"];
      if o.checkout {
        return;
      } else if o.rebase {
        args := args + ["--rebase"];
        assert args == ["pull", "--rebase"];
      } else if o.merge {
        args := args + ["--no-rebase"];
        assert args == ["pull", "--no-rebase"];
      } else if o.interactive {
        args := ["rebase", "--interactive"];
      } else if |upstreams| > 1 {
        args := args + ["--no-rebase"];
        assert args == ["pull", "--no-rebase"];
      }
      assert PullArgs(o, |upstreams|) == Some(args);
      err := Run(["git"] + args, o.noop, git);
    }

    /**
      The end of `greb` (main.go:373-388): pull every branch in sort order
      unless `-s`, then with `-d` walk the sorted branches from the last to the
      first and delete the merged ones, stopping at the first error.
     */
    method UpdateBranches(sorted: seq<string>, upstreamsOf: string -> set<Ref>, merged: string -> Merge, o: Options, git: Git)
      returns (err: Option<string>)
      modifies this
      ensures Step(Snapshot(), err) == Update(old(Snapshot()), sorted, upstreamsOf, merged, o, git)
    {
      err := None;
      ghost var start := Snapshot();
      ghost var pulled := if o.skip then Step(start, None) else PullEach(start, sorted, upstreamsOf, o, git);
      if !o.skip {
        for i := 0 to |sorted|
          invariant PullEach(Snapshot(), sorted[i..], upstreamsOf, o, git) == pulled
          invariant err == None
        {
          assert sorted[i..][0] == sorted[i] && sorted[i..][1..] == sorted[i + 1..];
          err := PullBranch(sorted[i], upstreamsOf(sorted[i]), o, git);
          if err.Some? {
            return;
          }
        }
        assert sorted[|sorted|..] == [];
      }
      assert pulled == Step(Snapshot(), None);
      if o.remove {
        ghost var after := Snapshot();
        assert sorted[..|sorted|] == sorted;
        var i := |sorted|;
        while i > 0
          invariant 0 <= i <= |sorted| && err == None
          invariant DeleteEach(Snapshot(), Reversed(sorted[..i]), merged, o.noop, git)
                 == DeleteEach(after, Reversed(sorted), merged, o.noop, git)
        {
          i := i - 1;
          assert sorted[..i + 1][..i] == sorted[..i];
          var n := sorted[i];
          assert Reversed(sorted[..i + 1]) == [n] + Reversed(sorted[..i]);
          match merged(n)
          case Unknown(e) =>
            err := Some(e);
            return;
          case Unmerged =>
          case Merged =>
            err := DeleteBranch(n, o.noop, git);
            if err.Some? {
              return;
            }
        }
        assert sorted[..0] == [];
      }
    }

    /** The deferred function of `greb` (main.go:358-372), given the error the run returns. */
    method ReturnToStart(err: Option<string>, noop: bool, git: Git)
      modifies this
      ensures Snapshot() == Finish(Step(old(Snapshot()), err), noop, git).state
    {
      if err.Some? && !Interrupted(err.value) {
        return;
      }
      if returnTo != "" {
        var ignored := CheckoutBranchIfNeeded(returnTo, noop, git);
      }
    }

    /** `greb` from the sort on: the update loops, then the deferred checkout back. */
    method RunGreb(sorted: seq<string>, upstreamsOf: string -> set<Ref>, merged: string -> Merge, o: Options, git: Git)
      returns (err: Option<string>)
      modifies this
      ensures Step(Snapshot(), err) == Greb(old(Snapshot()), sorted, upstreamsOf, merged, o, git)
    {
      err := UpdateBranches(sorted, upstreamsOf, merged, o, git);
      ReturnToStart(err, o.noop, git);
    }
  }
}
