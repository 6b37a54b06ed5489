/**
  The command-line settings of git-greb and the check `assertFlags` makes on
  them: of the flags that choose what greb does, at most one may be given.
 */
module Flags {
  import opened TextOrder

  /** The package-level flag variables of main.go, one field each. */
  datatype Options = Options(
    bash: string,
    graphtxt: bool,
    graphdot: bool,
    graphxlib: bool,
    change: string,
    rebase: bool,
    merge: bool,
    interactive: bool,
    checkout: bool,
    skip: bool,
    remove: bool,
    local: bool,
    quiet: bool,
    verbose: bool,
    noop: bool)

  /** One row of the table `assertFlags` walks: how the flag is named in the message and whether it is set. */
  datatype Flag = Flag(name: string, value: bool)

  /** The mutually exclusive flags, in the order of the table. */
  function ExclusiveFlags(o: Options): seq<Flag>
  {
    [ Flag("-bash (bash completion)", o.bash != ""),
      Flag("-t (text graph)", o.graphtxt),
      Flag("-dot (dot graph)", o.graphdot),
      Flag("-x (xlib graph)", o.graphxlib),
      Flag("-r (rebase)", o.rebase),
      Flag("-m (merge)", o.merge),
      Flag("-i (interactive)", o.interactive),
      Flag("-c (checkout)", o.checkout),
      Flag("-s (skip)", o.skip) ]
  }

  /** The names of the set rows, in table order. */
  function SetNames(t: seq<Flag>): (r: seq<string>)
    ensures |r| <= |t|
    ensures forall n :: n in r <==> exists i :: 0 <= i < |t| && t[i].value && t[i].name == n
    decreases |t|
  {
    if t == [] then []
    else
      var front, last := t[..|t| - 1], t[|t| - 1];
      assert forall i :: 0 <= i < |front| ==> front[i] == t[i];
      SetNames(front) + if last.value then [last.name] else []
  }

  /** Two different rows of the table are set. */
  predicate TwoSet(t: seq<Flag>)
  {
    exists i, j :: 0 <= i < j < |t| && t[i].value && t[j].value
  }

  /** The table has two set rows exactly when more than one name is collected. */
  lemma {:induction false} TwoSetCount(t: seq<Flag>)
    ensures TwoSet(t) <==> |SetNames(t)| > 1
    decreases |t|
  {
    if t != [] {
      var front, last := t[..|t| - 1], t[|t| - 1];
      TwoSetCount(front);
      if TwoSet(t) && !TwoSet(front) {
        var i, j :| 0 <= i < j < |t| && t[i].value && t[j].value;
        assert j == |t| - 1 && front[i] == t[i];
        assert t[i].name in SetNames(front);
      }
      if TwoSet(front) {
        var i, j :| 0 <= i < j < |front| && front[i].value && front[j].value;
        assert t[i] == front[i] && t[j] == front[j];
      }
      if |SetNames(t)| > 1 && !TwoSet(front) {
        assert last.value && SetNames(front) != [] && SetNames(front)[0] in SetNames(front);
        var i :| 0 <= i < |front| && front[i].value && front[i].name == SetNames(front)[0];
        assert t[i] == front[i];
      }
    }
  }

  /** The outcome of `assertFlags`. */
  datatype Check = Pass | Fail(message: string)

  /** `assertFlags`: collects the names of the set rows; more than one is an error listing them. */
  method AssertFlags(o: Options) returns (r: Check)
    ensures r.Fail? <==> TwoSet(ExclusiveFlags(o))
    ensures r.Fail? ==> r.message == "incompatible flags: " + Join(SetNames(ExclusiveFlags(o)), ", ")
  {
    var flags := ExclusiveFlags(o);
    var found := [];
    for i := 0 to |flags|
      invariant found == SetNames(flags[..i])
    {
      assert flags[..i + 1][..i] == flags[..i];
      if flags[i].value {
        found := found + [flags[i].name];
      }
    }
    assert flags[..|flags|] == flags;
    TwoSetCount(flags);
    if |found| > 1 {
      r := Fail("incompatible flags: " + Join(found, ", "));
      return;
    }
    r := Pass;
  }

  /** The flags outside the table never take part in the check. */
  lemma OtherFlagsIgnored(o: Options, change: string, remove: bool, local: bool, quiet: bool, verbose: bool, noop: bool)
    ensures ExclusiveFlags(o.(change := change, remove := remove, local := local, quiet := quiet, verbose := verbose, noop := noop))
         == ExclusiveFlags(o)
  {
  }

  /**
    Once the check passes, at most one of the flags that choose what a pull
    does is set, so the order in which `pullBranch` tests them never matters.
   */
  lemma PassedFlagsExclusive(o: Options)
    requires !TwoSet(ExclusiveFlags(o))
    ensures o.rebase ==> !o.merge && !o.interactive && !o.checkout && !o.skip
    ensures o.merge ==> !o.interactive && !o.checkout && !o.skip
    ensures o.interactive ==> !o.checkout && !o.skip
    ensures o.checkout ==> !o.skip
  {
    var t := ExclusiveFlags(o);
    assert |t| == 9 && t[4].value == o.rebase && t[5].value == o.merge;
    assert t[6].value == o.interactive && t[7].value == o.checkout && t[8].value == o.skip;
    assert forall i, j :: 0 <= i < j < |t| ==> !(t[i].value && t[j].value);
  }
}
