/**
  How greb shows a git command line (`cmdArgs`) and the error it builds from a
  failed command (`cmdError`). An empty argument is shown as `''` so that it
  stays visible; every other argument is shown as it is, and the arguments are
  joined by single spaces.
 */
module Commands {
  import opened TextOrder

  /** How one argument is shown. */
  function Shown(arg: string): (r: string)
    ensures r != ""
    ensures arg != "" ==> r == arg
  {
    if arg == "" then "''" else arg
  }

  /** Every argument as shown, in order. */
  function ShownArgs(args: seq<string>): seq<string>
  {
    seq(|args|, i requires 0 <= i < |args| => Shown(args[i]))
  }

  /** The text `cmdArgs` prints for a command line. */
  function CommandLine(args: seq<string>): string
  {
    Join(ShownArgs(args), " ")
  }

  /** `cmdError`: the command line, a colon, and what went wrong. */
  function CommandError(args: seq<string>, err: string): (r: string)
    ensures |r| == |CommandLine(args)| + 2 + |err|
    ensures r[..|CommandLine(args)|] == CommandLine(args) && r[|CommandLine(args)|] == ':'
    ensures r[|r| - |err|..] == err
  {
    CommandLine(args) + ": " + err
  }

  /**
    `cmdArgs`: the arguments are copied, the empty ones in the copy are
    replaced by `''`, and the copy is joined with spaces. The argument
    sequence of the command is a value here, so it cannot change.
   */
  method CmdArgs(args: seq<string>) returns (s: string)
    ensures s == CommandLine(args)
  {
    var shown := args;
    for i := 0 to |shown|
      invariant |shown| == |args|
      invariant forall j :: 0 <= j < i ==> shown[j] == Shown(args[j])
      invariant forall j :: i <= j < |args| ==> shown[j] == args[j]
    {
      if shown[i] == "" {
        shown := shown[i := "''"];
      }
    }
    assert shown == ShownArgs(args);
    s := Join(shown, " ");
  }

  /** Undoes `Shown` on one argument. */
  function Unshown(arg: string): string
  {
    if arg == "''" then "" else arg
  }

  /** Showing loses nothing for arguments that are not literally `''`. */
  lemma ShownRoundTrip(args: seq<string>)
    requires forall i :: 0 <= i < |args| ==> args[i] != "''"
    ensures forall i :: 0 <= i < |args| ==> Unshown(ShownArgs(args)[i]) == args[i]
  {
  }

  /** Writing `''` in place of an empty argument does not change the printed command line. */
  lemma EmptyAndQuotesAlike(args: seq<string>, i: nat)
    requires i < |args| && args[i] == ""
    ensures CommandLine(args[i := "''"]) == CommandLine(args)
  {
    assert ShownArgs(args[i := "''"]) == ShownArgs(args);
  }

  /** Position of the first `c` in `s`. */
  function FirstIndex(s: string, c: char): (i: nat)
    requires c in s
    ensures i < |s| && s[i] == c && c !in s[..i]
  {
    if s[0] == c then 0 else 1 + FirstIndex(s[1..], c)
  }

  /** `strings.Split(s, sep)` for a one-character separator. */
  function Split(s: string, sep: char): (r: seq<string>)
    ensures r != []
    decreases |s|
  {
    if sep in s then
      var i := FirstIndex(s, sep);
      [s[..i]] + Split(s[i + 1..], sep)
    else [s]
  }

  lemma SplitFirst(p: string, sep: char, rest: string)
    requires sep !in p
    ensures Split(p + [sep] + rest, sep) == [p] + Split(rest, sep)
  {
    var s := p + [sep] + rest;
    assert s[|p|] == sep;
    assert s[..|p|] == p;
    var i := FirstIndex(s, sep);
    assert s[..|p| + 1][|p|] == sep;
    assert s[..i] == p && s[i + 1..] == rest;
  }

  /** Splitting a joined list at a separator none of its parts contains gives the parts back. */
  lemma {:induction false} SplitJoin(parts: seq<string>, sep: char)
    requires parts != []
    requires forall i :: 0 <= i < |parts| ==> sep !in parts[i]
    ensures Split(Join(parts, [sep]), sep) == parts
    decreases |parts|
  {
    if |parts| > 1 {
      SplitJoin(parts[1..], sep);
      SplitFirst(parts[0], sep, Join(parts[1..], [sep]));
      assert parts == [parts[0]] + parts[1..];
    }
  }

  /** A character in neither the parts nor the separator is not in the joined text. */
  lemma {:induction false} JoinAvoids(parts: seq<string>, sep: string, c: char)
    requires c !in sep
    requires forall i :: 0 <= i < |parts| ==> c !in parts[i]
    ensures c !in Join(parts, sep)
    decreases |parts|
  {
    if |parts| > 1 {
      JoinAvoids(parts[1..], sep, c);
    }
  }

  /**
    When no argument holds a colon, the failed command can be read back from
    a `cmdError` message: it is the text before the first colon.
   */
  lemma CommandErrorNamesCommand(args: seq<string>, err: string)
    requires forall i :: 0 <= i < |args| ==> ':' !in args[i]
    ensures Split(CommandError(args, err), ':')[0] == CommandLine(args)
  {
    var shown := ShownArgs(args);
    JoinAvoids(shown, " ", ':');
    assert CommandError(args, err) == CommandLine(args) + [':'] + (" " + err);
    SplitFirst(CommandLine(args), ':', " " + err);
  }

  /**
    The printed command line can be split back into the shown arguments when
    no argument holds a space: each non-empty argument comes back as it was.
   */
  lemma CommandLineSplits(args: seq<string>)
    requires args != []
    requires forall i :: 0 <= i < |args| ==> ' ' !in args[i]
    ensures Split(CommandLine(args), ' ') == ShownArgs(args)
    ensures forall i :: 0 <= i < |args| && args[i] != "" ==> Split(CommandLine(args), ' ')[i] == args[i]
  {
    var shown := ShownArgs(args);
    forall i | 0 <= i < |shown| ensures ' ' !in shown[i] {
      if args[i] == "" {
        assert shown[i] == "''";
      }
    }
    SplitJoin(shown, ' ');
  }
}
