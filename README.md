# git-greb: the branch graph and the update run, in Dafny

git-greb ("greb") brings a set of local git branches up to date. It reads
which branch tracks which (`branch.<name>.merge` and `branch.<name>.remote`),
builds a graph from that information, and then does the following:

- It sorts the graph so that a branch comes after the local branch it tracks.
- It pulls every branch in that order, checking each one out first.
- On request (`-d`), it deletes every branch that has been merged into its
  upstream. This pass walks the sorted list backwards.

It can also print the graph as an indented forest (`-t`) or as a Graphviz
digraph (`-dot`).

This project models the following parts of greb:

- the graph of `graph.go`;
- the flag check that refuses incompatible options;
- the way a git command line is shown;
- how a remote ref is mapped to its remote-tracking branch through the
  remote's fetch refspecs;
- the checkout, pull and delete bookkeeping of `main.go`, including the
  order of the deletion pass.

Every git command is a parameter. It is a function that says whether running
a command fails, given the commands already run.

Modules, one per concern:

- `TextOrder` (text_order.dfy): Go's byte-wise string order, `sort.Strings`
  as an insertion sort proved equal to the unique sorted arrangement of its
  input, `strings.Join`, `strings.Repeat`, and an `Option` type.
- `GraphSpec` (graph_spec.dfy): the two maps of `graph` as values. It defines
  `add` and `remove` as functions on those values and proves what they keep.
- `GraphOrder` (graph_order.dfy): what `sort` promises about the order it
  emits, and how the reversed order behaves.
- `GraphRender` (graph_render.dfy): the forest `toText` prints, the digraph
  `toDot` prints, and a reader that gets the map back from the digraph text.
- `BranchGraph` (graph.dfy): the class `Graph`. Its fields are the two maps,
  and its methods `Add`, `Sort`, `Remove`, `ToText` and `ToDot` follow the
  loops of graph.go. Each method is proved against the functions above. A
  Go `range` over a map visits keys in an order the program does not choose.
  The model picks each next key with `:|`, so every contract holds for every
  visiting order.
- `Flags` (flags.dfy): the flag variables and `assertFlags`.
- `Commands` (commands.dfy): `cmdArgs` and `cmdError`, and splitting a
  printed command line back into its arguments.
- `Fetchspecs` (fetchspec.dfy): the refspec loop of
  `findRemoteTrackingBranch`.
- `Session` (session.dfy): `checkoutBranchIfNeeded`, `deleteBranch`,
  `deleteBranchIfMerged`, `pullBranch` and the two loops at the end of
  `greb`. These are functions on a `State` value, and the class `Session`
  updates `current`, `returnTo` and the list of commands run in place.

main.go works with a richer graph than graph.go. Its usage text lets a
branch track several branches at once (main.go:171-173) and re-attaches the
trackers of a deleted branch to all of its upstreams (main.go:204-206). The
graph it builds (main.go:438-463), the configuration rewrite of `deleteBranch`
(main.go:667-702) and graph_test.go use nodes with several upstreams, and
their `remove` returns configuration edit records. The model follows graph.go
instead. graph.go keys branches by name and gives each branch exactly one
tracked name, the empty string when it tracks nothing. Its `remove(branch)`
returns the removed branch's tracked name and the branches re-attached to it.
Where main.go's loops need a branch's upstreams, they are a parameter.

## Model

| member | source | states |
|---|---|---|
| TextOrder.LessEqTotal | graph.go:90 | any two strings are comparable in the order `sort.Strings` uses |
| TextOrder.LessEqAntisymmetric | graph.go:90 | two strings that each sort no later than the other are equal |
| TextOrder.LessEqTransitive | graph.go:90 | the string order is transitive |
| TextOrder.SortedExists | graph.go:90 | every multiset of names has a sorted arrangement |
| TextOrder.SortedUnique | graph.go:90 | two sorted arrangements of the same multiset are equal, so the sorted output does not depend on the input order |
| TextOrder.SortStrings | graph.go:90 | the result is the sorted arrangement of the input: sorted, and a permutation of it |
| TextOrder.Repeat | graph.go:92 | the indent repeated n times has n times its length |
| GraphSpec.AddReverse | graph.go:23-29 | after `add(b, t)` the reverse set of `t` holds `b` and what it held before, a missing set is created, and every other set is unchanged |
| GraphSpec.AddConsistent | graph.go:20-30 | `add(b, t)` keeps the two maps in agreement exactly when `b` was new or already tracked `t`; otherwise `b` stays in its old target's reverse set |
| GraphSpec.AddIdempotent | graph.go:22-28 | a second `add(b, t)` with the same arguments changes neither map |
| GraphSpec.Detached | graph.go:67-68 | the reverse map after the deletions loses the key of the removed branch, and only the old target's set loses the removed branch |
| GraphSpec.RemovedDirect | graph.go:59-74 | after `remove(x)`, `x` has no entry, every branch that tracked `x` tracks the old target of `x`, and every other entry is unchanged |
| GraphSpec.RemovedReverse | graph.go:59-74 | after `remove(x)`, the re-attached branches are in the old target's reverse set, and the sets of every other name are unchanged |
| GraphSpec.AddEachIs | graph.go:70-72 | adding a list of branches under one name makes each of them track it |
| GraphSpec.AddEachReverseIs | graph.go:70-72 | adding a non-empty list of branches under one name adds all of them to its reverse set |
| GraphSpec.RemoveByAdds | graph.go:66-72 | the deletions followed by the re-adds, in any order, give the removed graph |
| GraphSpec.RemoveDetaches | graph.go:66-72 | when `x` does not track itself and is not listed in its own reverse set (a stale entry the re-adds of lines 70-72 would turn back into a key), no trace of `x` is left as a key or in its old target's set |
| GraphSpec.RemoveConsistent | graph.go:59-74 | removing a branch that does not track itself keeps the two maps in agreement |
| GraphSpec.RemoveSelfTrackingKeepsGraph | graph.go:70-72 | removing a branch that tracks itself gives the same graph back, because the re-add restores it |
| GraphOrder.EmitOne | graph.go:43-50 | emitting a pending branch whose tracked name is no longer pending keeps the sort invariant and shrinks the work |
| GraphOrder.EmittingDone | graph.go:51-53 | a pass that emits nothing ends the loop with the full sort contract |
| GraphOrder.SortCompleteWhenAcyclic | graph.go:41-54 | without a tracking cycle, `sort` lists exactly the branches that track a non-empty name |
| GraphOrder.SortOmitsCycles | graph.go:43-47 | a branch on a tracking cycle, or one that leads into a cycle, is never listed |
| GraphOrder.WalkEmittedEarlier | graph.go:43-49 | following tracked names from a listed branch for k steps moves at least k positions toward the start of the output |
| GraphOrder.ReversedIndex | main.go:382-383 | walking an index down from the end visits the list reversed |
| GraphOrder.ReversedTrackersFirst | main.go:381-387 | in the reversed sort order, a branch comes before the pending branch it tracks |
| GraphRender.LeafRanked | graph.go:76-96 | `toText` on a name that nobody tracks, other than the top level, is within the method's contract whatever the maps hold |
| GraphRender.ChildrenMembers | graph.go:77-90 | the names listed under a branch are its trackers, plus the roots at the top level |
| GraphRender.ForestLists | graph.go:91-93 | every name listed under `x` starts a line of the forest of `x`, at the current depth |
| GraphRender.ForestNests | graph.go:91-94 | a name listed under `t` is printed one level deeper than `t`, wherever `t` is printed |
| GraphRender.RenderAppend | graph.go:91-94 | the text of two runs of lines is the two texts one after the other |
| GraphRender.ForestShowsEveryBranch | graph.go:76-96 | with consistent maps and no tracking cycle, the top-level forest prints every branch that has an entry |
| GraphRender.ForestNamesKnown | graph.go:76-96 | every printed name is a branch with an entry or a root |
| GraphRender.DotLinesAppend | graph.go:105-112 | printing one more branch appends exactly its line |
| GraphRender.ReadDotLinesOf | graph.go:105-113 | the printed lines read back as the map entries of the branches printed |
| GraphRender.DotRoundTrip | graph.go:98-115 | when no name holds a double quote, the digraph text reads back as the whole direct map |
| BranchGraph.Collect | graph.go:62-64 | ranging over a set gives each element once, in some order |
| BranchGraph.SortedKeys | graph.go:99-103 | the sorted key list holds exactly the keys, and the digraph built from it is the digraph of the map |
| BranchGraph.Graph.constructor | graph.go:14-18 | a new graph has two empty maps |
| BranchGraph.Graph.Add | graph.go:20-30 | the new direct map maps the branch to its tracked name, and the reverse map is as described by `AddReverse` |
| BranchGraph.Graph.PendingCopy | graph.go:34-39 | the copy holds the entries with a non-empty tracked name |
| BranchGraph.Graph.Sort | graph.go:32-57 | the output lists distinct pending branches, every listed branch comes after its pending tracked name, and every pending branch left out tracks a pending branch that is left out too |
| BranchGraph.Graph.Remove | graph.go:59-74 | returns the old tracked name and each former tracker once, and leaves the maps described by `RemovedDirect` and `RemovedReverse` |
| BranchGraph.Graph.ListChildren | graph.go:77-89 | collects the trackers of the branch, plus the roots at the top level, each once |
| BranchGraph.Graph.ToText | graph.go:76-96 | the text is the forest under the branch, with siblings sorted, each line indented by its depth and followed by its own subtree |
| BranchGraph.Graph.ToDot | graph.go:98-115 | the text is the digraph of the direct map, one line per branch in sorted order |
| Flags.OtherFlagsIgnored | main.go:70-83 | `-d`, `-l`, `-q`, `-v`, `-n` and the starting branch play no part in the check |
| Flags.SetNames | main.go:84-89 | the collected names are exactly the names of the set rows |
| Flags.TwoSetCount | main.go:84-93 | more than one name is collected exactly when two rows are set |
| Flags.AssertFlags | main.go:69-95 | the check fails exactly when two exclusive flags are set, and its message lists the set flags in table order |
| Flags.PassedFlagsExclusive | main.go:69-95 | after the check passes, at most one of `-r`, `-m`, `-i`, `-c` and `-s` is set |
| Commands.Shown | main.go:742-744 | the shown text is never empty, and a non-empty argument is shown as itself |
| Commands.CmdArgs | main.go:739-747 | the printed command line is the shown arguments joined by single spaces |
| Commands.ShownRoundTrip | main.go:741-745 | showing loses nothing for arguments other than a literal `''` |
| Commands.EmptyAndQuotesAlike | main.go:742-743 | writing a literal `''` in place of any empty argument leaves the printed command line unchanged |
| Commands.CommandError | main.go:749-751 | the message is the printed command line, a colon, and then the error text at the end |
| Commands.JoinAvoids | main.go:746 | a character in neither the arguments nor the separator does not occur in the joined line |
| Commands.CommandErrorNamesCommand | main.go:739-751 | when no argument holds a colon, the failed command line is the text before the first colon of the message |
| Commands.SplitJoin | main.go:746 | splitting a joined list at a separator that no part contains gives the parts back |
| Commands.CommandLineSplits | main.go:739-747 | a printed command line whose arguments hold no space splits back into the shown arguments |
| Fetchspecs.Unforced | main.go:537-539 | one leading `+` is dropped, and nothing else changes |
| Fetchspecs.NormalizeForced | main.go:537-539 | a leading `+` does not change how a refspec is read |
| Fetchspecs.Normalize | main.go:537-544 | a refspec is readable exactly when it holds a colon once its `+` is dropped |
| Fetchspecs.NormalizeWildcard | main.go:540-544 | `f*:l*` reads as the prefixes `f` and `l` |
| Fetchspecs.NormalizeExact | main.go:540-544 | `f:l` without a pair of stars reads as `f` and `l` unchanged |
| Fetchspecs.Answered | main.go:547-551 | git's answer for the rewritten ref decides the outcome, and never panics |
| Fetchspecs.FindRemoteTrackingBranch | main.go:536-555 | the loop's outcome is the lookup over the refspecs in order, with colon-less refspecs passed over (see Findings), so it never panics |
| Fetchspecs.Resolve | main.go:536-555 | as written, the lookup over refspecs that all hold a colon never panics |
| Fetchspecs.PassedOver | main.go:536-553 | refspecs that all normalise and none of which matches the ref are passed over without effect |
| Fetchspecs.FirstMatchWins | main.go:545-552 | the first refspec whose source prefixes the ref decides the outcome |
| Fetchspecs.NoMatchFails | main.go:554 | when no refspec matches, the outcome is the "does not fetch ref" error |
| Fetchspecs.TrackedFromMatch | main.go:545-551 | a branch is found only through a matching refspec and git's name for its rewrite |
| Fetchspecs.WildcardMaps | main.go:542-546 | under `f*:l*`, forced or not, the ref `f`+rest maps to git's name for `l`+rest |
| Fetchspecs.ColonlessSpecPanics | main.go:536-541 | for any ref and refspec list, a colon-less refspec reached before any refspec matches makes the lookup panic |
| Fetchspecs.PlainRefspecPanics | main.go:540-541 | the lookup of `refs/heads/topic` under the refspecs `refs/heads/main` and `+refs/heads/*:refs/remotes/origin/*` panics |
| Fetchspecs.ResolveSkipping | main.go:536-555 | the lookup that passes over colon-less refspecs never panics |
| Fetchspecs.SkippingAgrees | main.go:536-555 | passing over colon-less refspecs changes nothing whenever the code as written does not panic |
| Session.Exec | main.go:658-666 | in noop mode nothing runs and nothing fails; otherwise the command is recorded and a failure becomes the `cmdError` text |
| Session.CheckoutArg | main.go:711-716 | git is always given a non-empty argument: the branch, or `--detach` |
| Session.Checkout | main.go:707-728 | nothing happens when the branch is already checked out; success moves to the branch, failure stays put, and at most the checkout command is added |
| Session.CheckoutIdempotent | main.go:708-710 | after a successful checkout, checking out the same branch again does nothing |
| Session.CheckoutRunsGit | main.go:707-725 | git runs exactly when the target differs from the current branch and noop is off |
| Session.CheckoutNoop | main.go:718-726 | in noop mode a checkout always succeeds and moves to the target |
| Session.Delete | main.go:650-652 | the branch to return to is cleared exactly when it is the branch being deleted |
| Session.DeleteMovesAway | main.go:649-666 | after a successful deletion, the deleted branch is neither checked out nor the branch to return to |
| Session.DeleteCurrent | main.go:653-666 | deleting the checked-out branch moves to the branch to return to (or detaches), and `git branch -D` comes last |
| Session.DeleteOther | main.go:653-666 | deleting a branch that is not checked out only runs `git branch -D` |
| Session.PullArgs | main.go:587-598 | `-c` stops before the pull; otherwise a rebase happens exactly when `-r`, or `-i` without `-m`, asks for one, and a branch with several upstreams is merged unless a rebase is asked for |
| Session.PullArgsOfFlag | main.go:587-598 | after the flag check, the pull is the one its flag asks for; with no flag, a branch with several upstreams is merged and a branch with one is pulled the default way |
| Session.Pull | main.go:577-583 | with `-l`, a branch with an upstream from another repository is left alone, and the branch to return to never changes |
| Session.PullChecksOut | main.go:584-608 | a successful pull leaves the branch checked out, and its last command is the pull itself |
| Session.PullEach | main.go:374-380 | the pull loop never changes the branch to return to, and in noop mode it runs no command and cannot fail |
| Session.DeleteIfMerged | main.go:612-647 | an unmerged branch is left as it is |
| Session.DeleteEach | main.go:381-388 | the deletion loop keeps or clears the branch to return to, and in noop mode runs no checkout or `branch -D` |
| Session.Update | main.go:373-388 | only the deletion pass of `-d` can clear the branch to return to, and with `-n` no checkout, pull or `branch -D` is run |
| Session.Finish | main.go:358-372 | the deferred function never changes the run's error; after success or an interrupted command it goes back to the branch to return to, when there is one and the checkout succeeds; after any other error, or with no branch to return to, nothing happens |
| Session.GrebMovesAway | main.go:358-388 | a run with `-d` that ends without error finishes on none of the merged branches of the sorted list, the deferred checkout included |
| Session.NoopGrebReturns | main.go:362-371 | with `-n`, a run that ends without error finishes on the branch to return to, when there is one |
| Session.UpdateMovesAway | main.go:373-388 | a run with `-d` that ends without error is neither left on nor set to return to any merged branch of the sorted list |
| Session.DeleteEachMovesAway | main.go:381-388 | a deletion pass that succeeds leaves none of the deleted branches checked out or to be returned to |
| Session.StaysAway | main.go:649-657 | a branch that is neither checked out nor the branch to return to stays so through later deletions |
| Session.Session.constructor | main.go:333-355 | a run starts on the current branch, with the branch to return to, and no command run |
| Session.Session.Run | main.go:599-608 | the new state and error are those of `Exec` |
| Session.Session.CheckoutBranchIfNeeded | main.go:707-728 | the new state and error are those of `Checkout` |
| Session.Session.DeleteBranch | main.go:649-666 | the new state and error are those of `Delete` |
| Session.Session.PullBranch | main.go:576-610 | the local-only skip loop and the argument chain give the state and error of `Pull` |
| Session.Session.UpdateBranches | main.go:373-388 | the pull loop, then the reversed deletion loop, give the state and error of `Update` |
| Session.Session.ReturnToStart | main.go:358-372 | the deferred checkout updates the state as `Finish` says |
| Session.Session.RunGreb | main.go:358-388 | the update loops followed by the deferred checkout give the state and error of `Greb` |

## Left out

- Running git: `newCommand`, `getTrackingInfo`, `getAbbrevSymbolicFullName`,
  `filterBranches` and the process plumbing (stdin, stdout, stderr). Each
  command's failure is the `Git` parameter, and `git rev-parse --abbrev-ref`
  is the `abbrev` parameter of the refspec lookup. The `Git` parameter
  depends only on the commands already run and the command itself, so the
  model is deterministic where the repository is not.
- Reading the configuration to build the graph (`fillGraphForBranches`,
  `fillGraphForAllBranches`, `updateFlagsWithOptions`): these only read git
  output. The graph is given as its maps instead.
- main.go and graph_test.go use a graph of nodes with several upstreams,
  which `remove` answers with configuration edit records. That graph API is
  not part of the graph.go modelled here. In particular, the configuration
  rewrite loop of `deleteBranch` (main.go:667-702) is not modelled. Each
  branch's upstreams are a `set<Ref>` parameter of the pull, and the sorted
  order is a sequence of branch names.
- `deleteBranchIfMerged` compares the branch's hash with its upstreams'
  hashes. Here those `git rev-parse` calls and the comparison are a `merged`
  parameter that answers merged, unmerged, or an error.
- The graph tests in graph_test.go are not part of this model. They exercise
  that other API.
- Signal handling (main.go:356-361): the interrupt itself is not modelled.
  As in the source, an interrupted command is recognised only by its error
  text, which ends in `signal: interrupt` (`Interrupted`). The deferred
  checkout back to the starting branch is modelled (`Finish`).
- Usage text, flag registration, `bashCompletion`, colours (`initColors`),
  logging, and the printing of commands under `-q`/`-v`: these are output
  only. `-q` and `-v` have no effect in the model.
- Printing the graph in `greb` (main.go:334-352): this calls the node-based
  renderers, which are not part of graph.go. `toText` and `toDot` of graph.go
  are modelled.
- Go's map iteration order: it is left open with `:|`, so no particular
  order is modelled.
- Fetchspecs.FindRemoteTrackingBranch: passes over a refspec without a colon
  where main.go:540-541 panics. This is the correction listed under
  Findings. The lookup as written is `Resolve`.
- BranchGraph.Graph.ToText: `count` is a `nat`. Go's `strings.Repeat` panics
  on a negative count, which no call in greb passes.
- BranchGraph.Graph.ToText: the method requires a ranking of the names its
  recursion reaches (`Layered`). The model does not prove which maps admit
  one. `add` can leave the maps out of agreement (`AddConsistent`): after
  `add(a, b)`, `add(b, a)` and `add(a, "")`, `b` is listed under `a` and `a`
  is still listed under `b`. Then `toText("")` has no end, no ranking exists,
  and the call is outside the method's contract. A call on a name the
  recursion cannot lead back to, such as `toText("zzz")`, is covered.
- BranchGraph.Graph.Sort: its contract says nothing about the order of the
  branches emitted within one pass. That order is Go's map order, which the
  source does not control either.

## Findings

| source | as written | input that shows it | evidently intended | confidence | as-written member | corrected member |
|---|---|---|---|---|---|---|
| main.go:540-541 | each fetch refspec is split at `:` and `p[1]` is read without checking that a colon was found | a remote whose fetch refspecs list `refs/heads/main` (or a negative refspec `^refs/heads/wip`) before `+refs/heads/*:refs/remotes/origin/*`, looking up `refs/heads/topic`: the index is out of range and greb panics | pass over refspecs without a colon, since they store no remote-tracking branch | medium, not executed | Fetchspecs.PlainRefspecPanics | Fetchspecs.ResolveSkipping |
