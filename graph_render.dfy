/**
  The two renderings of the branch graph: the indented forest printed by
  `toText` and the digraph description printed by `toDot`, as functions of
  the graph state. The methods that build them with loops are in module
  BranchGraph and are proved equal to these.
 */
module GraphRender {
  import opened TextOrder
  import opened GraphSpec

  // ---------------------------------------------------------------- toText

  /** Tracked names with no tracking entry of their own: the roots `toText` adds at the top. */
  function Roots(d: Direct, r: Reverse): set<string>
  {
    set b | b in r && b != "" && b !in d
  }

  /**
    A ranking that makes the recursion of `toText` finite: every branch
    listed under a ranked name ranks below that name, and when the top level
    is ranked the roots rank below it. Names the recursion never reaches, such
    as a tracking cycle, need no rank.
   */
  ghost predicate Layered(d: Direct, r: Reverse, rank: map<string, nat>)
  {
    && (forall t :: t in rank && t in r ==> forall c :: c in r[t] ==> c in rank && rank[c] < rank[t])
    && ("" in rank ==> forall b :: b in Roots(d, r) ==> b in rank && rank[b] < rank[""])
  }

  /** A name that nobody tracks, other than the top level, can always be printed: one rank suffices. */
  lemma LeafRanked(d: Direct, r: Reverse, x: string)
    requires x != "" && x !in r
    ensures Layered(d, r, map[x := 0])
  {
  }

  /** The top level and every tracked name are ranked, so no tracking cycle exists. */
  ghost predicate RanksAll(r: Reverse, rank: map<string, nat>)
  {
    && "" in rank
    && (forall t :: t in r ==> t in rank)
  }

  /** The names listed under `branch`: the slice `toText` sorts before printing. */
  ghost function Children(d: Direct, r: Reverse, branch: string): (kids: seq<string>)
    ensures Sorted(kids)
  {
    if branch == "" then SortedOf(multiset(Tracking(r, "")) + multiset(Roots(d, r)))
    else SortedOf(multiset(Tracking(r, branch)))
  }

  lemma ChildrenMembers(d: Direct, r: Reverse, branch: string, c: string)
    ensures c in Children(d, r, branch) <==>
      c in Tracking(r, branch) || (branch == "" && c in Roots(d, r))
  {
    var kids := Children(d, r, branch);
    assert c in kids <==> c in multiset(kids);
  }

  lemma ChildrenRanked(d: Direct, r: Reverse, rank: map<string, nat>, branch: string)
    requires Layered(d, r, rank) && branch in rank
    ensures forall c :: c in Children(d, r, branch) ==> c in rank && rank[c] < rank[branch]
  {
    forall c | c in Children(d, r, branch) ensures c in rank && rank[c] < rank[branch] {
      ChildrenMembers(d, r, branch, c);
      if c in Tracking(r, branch) {
        assert branch in r && c in r[branch];
      } else {
        assert branch == "" && c in Roots(d, r);
      }
    }
  }

  /** One printed line of the forest: a name at an indentation depth. */
  datatype Line = Line(depth: nat, name: string)

  /** The lines `toText(branch, indent, depth)` prints, in order. */
  ghost function Forest(d: Direct, r: Reverse, rank: map<string, nat>, branch: string, depth: nat): seq<Line>
    requires Layered(d, r, rank) && branch in rank
    decreases rank[branch], 1, 0
  {
    ChildrenRanked(d, r, rank, branch);
    Grove(d, r, rank, Children(d, r, branch), depth, rank[branch])
  }

  /** The lines printed for the siblings `kids`, each followed by its own forest. */
  ghost function Grove(d: Direct, r: Reverse, rank: map<string, nat>, kids: seq<string>, depth: nat, bound: nat): seq<Line>
    requires Layered(d, r, rank)
    requires forall c :: c in kids ==> c in rank && rank[c] < bound
    decreases bound, 0, |kids|
  {
    if kids == [] then []
    else
      var last := kids[|kids| - 1];
      Grove(d, r, rank, kids[..|kids| - 1], depth, bound) + [Line(depth, last)] + Forest(d, r, rank, last, depth + 1)
  }

  /** The text of one line: the indent repeated `depth` times, the name and a newline. */
  function TextLine(line: Line, indent: string): string
  {
    Repeat(indent, line.depth) + line.name + "\n"
  }

  /** The text of some lines, one after the other. */
  function Render(lines: seq<Line>, indent: string): string
  {
    if lines == [] then ""
    else Render(lines[..|lines| - 1], indent) + TextLine(lines[|lines| - 1], indent)
  }

  lemma {:induction false} RenderAppend(a: seq<Line>, b: seq<Line>, indent: string)
    ensures Render(a + b, indent) == Render(a, indent) + Render(b, indent)
    decreases |b|
  {
    if b == [] {
      assert a + b == a;
    } else {
      var b', last := b[..|b| - 1], b[|b| - 1];
      assert (a + b)[..|a + b| - 1] == a + b';
      assert (a + b)[|a + b| - 1] == last;
      RenderAppend(a, b', indent);
      ConcatAssoc(Render(a, indent), Render(b', indent), TextLine(last, indent));
    }
  }

  /** The grove of one more sibling. */
  lemma GroveStep(d: Direct, r: Reverse, rank: map<string, nat>, kids: seq<string>, i: nat, depth: nat, bound: nat)
    requires Layered(d, r, rank)
    requires forall c :: c in kids ==> c in rank && rank[c] < bound
    requires i < |kids|
    ensures Grove(d, r, rank, kids[..i + 1], depth, bound)
         == Grove(d, r, rank, kids[..i], depth, bound) + [Line(depth, kids[i])] + Forest(d, r, rank, kids[i], depth + 1)
  {
    assert kids[..i + 1][..i] == kids[..i];
  }

  /** The lines printed for the first `i` of the siblings `kids`. */
  ghost function GroveUpTo(d: Direct, r: Reverse, rank: map<string, nat>, kids: seq<string>, i: nat, depth: nat, bound: nat): seq<Line>
    requires Layered(d, r, rank)
    requires forall c :: c in kids ==> c in rank && rank[c] < bound
    requires i <= |kids|
  {
    assert forall c :: c in kids[..i] ==> c in kids;
    Grove(d, r, rank, kids[..i], depth, bound)
  }

  /** The text of one more sibling: its line, then its own subtree. */
  lemma TextStep(d: Direct, r: Reverse, rank: map<string, nat>, kids: seq<string>, i: nat, depth: nat, bound: nat,
                 indent: string, s: string, sub: string)
    requires Layered(d, r, rank)
    requires forall c :: c in kids ==> c in rank && rank[c] < bound
    requires i < |kids|
    requires s == Render(GroveUpTo(d, r, rank, kids, i, depth, bound), indent)
    requires sub == Render(Forest(d, r, rank, kids[i], depth + 1), indent)
    ensures s + TextLine(Line(depth, kids[i]), indent) + sub == Render(GroveUpTo(d, r, rank, kids, i + 1, depth, bound), indent)
  {
    var front := Grove(d, r, rank, kids[..i], depth, bound);
    assert (front + [Line(depth, kids[i])])[..|front|] == front;
    RenderAppend(front + [Line(depth, kids[i])], Forest(d, r, rank, kids[i], depth + 1), indent);
    GroveStep(d, r, rank, kids, i, depth, bound);
  }

  /** All the siblings: the forest under their parent. */
  lemma GroveUpToAll(d: Direct, r: Reverse, rank: map<string, nat>, branch: string, depth: nat)
    requires Layered(d, r, rank) && branch in rank
    ensures forall c :: c in Children(d, r, branch) ==> c in rank && rank[c] < rank[branch]
    ensures GroveUpTo(d, r, rank, Children(d, r, branch), |Children(d, r, branch)|, depth, rank[branch])
         == Forest(d, r, rank, branch, depth)
  {
    ChildrenRanked(d, r, rank, branch);
    var kids := Children(d, r, branch);
    assert kids[..|kids|] == kids;
  }

  lemma {:induction false} GroveLists(d: Direct, r: Reverse, rank: map<string, nat>, kids: seq<string>, depth: nat, bound: nat, c: string)
    requires Layered(d, r, rank)
    requires forall k :: k in kids ==> k in rank && rank[k] < bound
    requires c in kids
    ensures Line(depth, c) in Grove(d, r, rank, kids, depth, bound)
    decreases |kids|
  {
    var last := kids[|kids| - 1];
    if c != last {
      assert c in kids[..|kids| - 1] by {
        var i :| 0 <= i < |kids| && kids[i] == c;
        assert i < |kids| - 1;
      }
      GroveLists(d, r, rank, kids[..|kids| - 1], depth, bound, c);
    }
  }

  /** Each name listed under `x` starts a line of the forest of `x`. */
  lemma ForestLists(d: Direct, r: Reverse, rank: map<string, nat>, x: string, depth: nat, c: string)
    requires Layered(d, r, rank) && x in rank && c in Children(d, r, x)
    ensures Line(depth, c) in Forest(d, r, rank, x, depth)
  {
    ChildrenRanked(d, r, rank, x);
    GroveLists(d, r, rank, Children(d, r, x), depth, rank[x], c);
  }

  /** A name listed under `t` is printed one level deeper than `t`, wherever `t` is printed. */
  lemma {:induction false} ForestNests(d: Direct, r: Reverse, rank: map<string, nat>, x: string, depth: nat, k: nat, t: string, c: string)
    requires Layered(d, r, rank) && x in rank
    requires Line(k, t) in Forest(d, r, rank, x, depth) && c in Children(d, r, t)
    ensures Line(k + 1, c) in Forest(d, r, rank, x, depth)
    decreases rank[x], 1
  {
    ChildrenRanked(d, r, rank, x);
    GroveNests(d, r, rank, Children(d, r, x), depth, rank[x], k, t, c);
  }

  lemma {:induction false} GroveNests(d: Direct, r: Reverse, rank: map<string, nat>, kids: seq<string>, depth: nat, bound: nat, k: nat, t: string, c: string)
    requires Layered(d, r, rank)
    requires forall y :: y in kids ==> y in rank && rank[y] < bound
    requires Line(k, t) in Grove(d, r, rank, kids, depth, bound) && c in Children(d, r, t)
    ensures Line(k + 1, c) in Grove(d, r, rank, kids, depth, bound)
    decreases bound, 0, |kids|
  {
    var last := kids[|kids| - 1];
    var front := kids[..|kids| - 1];
    GroveMembers(d, r, rank, kids, depth, bound);
    if Line(k, t) in Grove(d, r, rank, front, depth, bound) {
      GroveNests(d, r, rank, front, depth, bound, k, t, c);
    } else if Line(k, t) == Line(depth, last) {
      ForestLists(d, r, rank, last, depth + 1, c);
    } else {
      ForestNests(d, r, rank, last, depth + 1, k, t, c);
    }
  }

  /** A line of a non-empty grove is in the grove of the earlier siblings, the last sibling's line or its forest. */
  lemma GroveMembers(d: Direct, r: Reverse, rank: map<string, nat>, kids: seq<string>, depth: nat, bound: nat)
    requires Layered(d, r, rank)
    requires forall y :: y in kids ==> y in rank && rank[y] < bound
    requires kids != []
    ensures forall y :: y in kids[..|kids| - 1] ==> y in rank && rank[y] < bound
    ensures forall x :: x in Grove(d, r, rank, kids, depth, bound) <==>
      x in Grove(d, r, rank, kids[..|kids| - 1], depth, bound) || x == Line(depth, kids[|kids| - 1]) ||
      x in Forest(d, r, rank, kids[|kids| - 1], depth + 1)
  {
    var last := kids[|kids| - 1];
    var front := kids[..|kids| - 1];
    assert forall y :: y in front ==> y in kids;
    var g0 := Grove(d, r, rank, front, depth, bound);
    var sub := Forest(d, r, rank, last, depth + 1);
    forall x ensures x in Grove(d, r, rank, kids, depth, bound) <==> x in g0 || x == Line(depth, last) || x in sub {
      InThreeParts(x, g0, Line(depth, last), sub);
    }
  }

  /** Membership in a sequence made of a prefix, one element and a suffix. */
  lemma InThreeParts<T>(x: T, a: seq<T>, m: T, b: seq<T>)
    ensures x in a + [m] + b <==> x in a || x == m || x in b
  {
  }

  /** Every rank is at most some bound. */
  lemma RankCeiling(rank: map<string, nat>) returns (n: nat)
    ensures forall b :: b in rank ==> rank[b] <= n
  {
    n := 0;
    var todo := rank.Keys;
    while todo != {}
      invariant todo <= rank.Keys
      invariant forall b :: b in rank && b !in todo ==> rank[b] <= n
      decreases todo
    {
      var b :| b in todo;
      if rank[b] > n { n := rank[b]; }
      todo := todo - {b};
    }
  }

  /** The name a branch tracks is ranked above it, and lists it. */
  lemma ParentRanked(d: Direct, r: Reverse, rank: map<string, nat>, b: string)
    requires Layered(d, r, rank) && RanksAll(r, rank)
    requires b in d && d[b] in r && b in r[d[b]]
    ensures d[b] in rank && b in rank && rank[b] < rank[d[b]]
    ensures b in Children(d, r, d[b])
  {
    ChildrenMembers(d, r, d[b], b);
  }

  lemma {:induction false} ShownAtSomeDepth(d: Direct, r: Reverse, rank: map<string, nat>, b: string, n: nat) returns (k: nat)
    requires Layered(d, r, rank) && RanksAll(r, rank)
    requires forall y :: y in d ==> d[y] in r && y in r[d[y]]
    requires forall y :: y in rank ==> rank[y] <= n
    requires b in d && b in rank
    ensures Line(k, b) in Forest(d, r, rank, "", 0)
    decreases n - rank[b], 1
  {
    var t := d[b];
    ParentRanked(d, r, rank, b);
    if t == "" || t !in d {
      k := ShownNearTop(d, r, rank, b, t);
    } else {
      ShownUnderParent(d, r, rank, b, n);
      k :| Line(k, b) in Forest(d, r, rank, "", 0);
    }
  }

  /** A branch tracking another branch is printed one level below it. */
  lemma {:induction false} ShownUnderParent(d: Direct, r: Reverse, rank: map<string, nat>, b: string, n: nat)
    requires Layered(d, r, rank) && RanksAll(r, rank)
    requires forall y :: y in d ==> d[y] in r && y in r[d[y]]
    requires forall y :: y in rank ==> rank[y] <= n
    requires b in d && b in rank && d[b] in d
    ensures exists k :: Line(k, b) in Forest(d, r, rank, "", 0)
    decreases n - rank[b], 0
  {
    var t := d[b];
    ParentRanked(d, r, rank, b);
    var kt := ShownAtSomeDepth(d, r, rank, t, n);
    ForestNests(d, r, rank, "", 0, kt, t, b);
  }

  /** A branch tracking nothing, or tracking a root, is printed at the top or just below its root. */
  lemma ShownNearTop(d: Direct, r: Reverse, rank: map<string, nat>, b: string, t: string) returns (k: nat)
    requires Layered(d, r, rank) && "" in rank
    requires t in r && b in Children(d, r, t)
    requires t == "" || t !in d
    ensures Line(k, b) in Forest(d, r, rank, "", 0)
  {
    if t == "" {
      k := 0;
      ForestLists(d, r, rank, "", 0, b);
    } else {
      assert t in Roots(d, r);
      k := 1;
      ShownUnderRoot(d, r, rank, b, t);
    }
  }

  /** A branch tracking a root is printed just below it. */
  lemma ShownUnderRoot(d: Direct, r: Reverse, rank: map<string, nat>, b: string, t: string)
    requires Layered(d, r, rank) && "" in rank
    requires t in Roots(d, r) && b in Children(d, r, t)
    ensures Line(1, b) in Forest(d, r, rank, "", 0)
  {
    ChildrenMembers(d, r, "", t);
    ForestLists(d, r, rank, "", 0, t);
    ForestNests(d, r, rank, "", 0, 0, t, b);
  }

  /** With consistent maps and no tracking cycle, the top-level forest prints every branch that has a tracking entry. */
  lemma ForestShowsEveryBranch(d: Direct, r: Reverse, rank: map<string, nat>)
    requires Consistent(d, r) && Layered(d, r, rank) && RanksAll(r, rank)
    ensures forall b :: b in d ==> exists k :: Line(k, b) in Forest(d, r, rank, "", 0)
  {
    var n := RankCeiling(rank);
    forall b | b in d ensures exists k :: Line(k, b) in Forest(d, r, rank, "", 0) {
      ParentRanked(d, r, rank, b);
      var k := ShownAtSomeDepth(d, r, rank, b, n);
    }
  }

  /** Names printed at or under `x`: tracking branches, and at the top level also the roots. */
  lemma {:induction false} ForestNamesKnown(d: Direct, r: Reverse, rank: map<string, nat>, x: string, depth: nat, line: Line)
    requires Layered(d, r, rank)
    requires forall t, c :: t in r && c in r[t] ==> c in d
    requires x in rank
    requires line in Forest(d, r, rank, x, depth)
    ensures line.name in d || line.name in Roots(d, r)
    decreases rank[x], 1
  {
    ChildrenRanked(d, r, rank, x);
    GroveNamesKnown(d, r, rank, x, Children(d, r, x), depth, rank[x], line);
  }

  lemma {:induction false} GroveNamesKnown(d: Direct, r: Reverse, rank: map<string, nat>, x: string, kids: seq<string>, depth: nat, bound: nat, line: Line)
    requires Layered(d, r, rank)
    requires forall t, c :: t in r && c in r[t] ==> c in d
    requires forall y :: y in kids ==> y in rank && rank[y] < bound
    requires forall y :: y in kids ==> y in Children(d, r, x)
    requires line in Grove(d, r, rank, kids, depth, bound)
    ensures line.name in d || line.name in Roots(d, r)
    decreases bound, 0, |kids|
  {
    var last := kids[|kids| - 1];
    var front := kids[..|kids| - 1];
    GroveMembers(d, r, rank, kids, depth, bound);
    if line in Grove(d, r, rank, front, depth, bound) {
      assert forall y :: y in front ==> y in kids;
      GroveNamesKnown(d, r, rank, x, front, depth, bound, line);
    } else if line == Line(depth, last) {
      ChildrenMembers(d, r, x, last);
      if last in Tracking(r, x) {
        assert x in r && last in r[x];
      }
    } else {
      ForestNamesKnown(d, r, rank, last, depth + 1, line);
    }
  }

  // ----------------------------------------------------------------- toDot

  /** The line `toDot` prints for branch `b` tracking `t`. */
  function DotLine(b: string, t: string): string
  {
    if t == "" then "  \"" + b + "\";\n"
    else "  \"" + b + "\" -> \"" + t + "\";\n"
  }

  /** The lines for `keys`, in that order. */
  function DotLines(d: Direct, keys: seq<string>): string
    requires forall k :: k in keys ==> k in d
  {
    if keys == [] then "" else DotLine(keys[0], d[keys[0]]) + DotLines(d, keys[1..])
  }

  lemma {:induction false} DotLinesAppend(d: Direct, keys: seq<string>, k: string)
    requires forall y :: y in keys ==> y in d
    requires k in d
    ensures DotLines(d, keys + [k]) == DotLines(d, keys) + DotLine(k, d[k])
    decreases |keys|
  {
    if keys != [] {
      assert (keys + [k])[0] == keys[0];
      assert (keys + [k])[1..] == keys[1..] + [k];
      DotLinesAppend(d, keys[1..], k);
      ConcatAssoc(DotLine(keys[0], d[keys[0]]), DotLines(d, keys[1..]), DotLine(k, d[k]));
    } else {
      assert [k][1..] == [];
    }
  }

  /** One more key printed. */
  lemma DotLinesStep(d: Direct, keys: seq<string>, i: nat)
    requires forall k :: k in keys ==> k in d
    requires i < |keys|
    ensures DotLines(d, keys[..i + 1]) == DotLines(d, keys[..i]) + DotLine(keys[i], d[keys[i]])
  {
    assert keys[..i + 1] == keys[..i] + [keys[i]];
    DotLinesAppend(d, keys[..i], keys[i]);
  }

  /** A digraph holding the lines for `keys`, in that order. */
  function Digraph(d: Direct, keys: seq<string>): string
    requires forall k :: k in keys ==> k in d
  {
    "digraph {\n" + DotLines(d, keys) + "}\n"
  }

  /** The whole of `toDot`: a digraph with one line per branch, branches in sorted order. */
  ghost function DotText(d: Direct): string
  {
    var keys := SortedOf(multiset(d.Keys));
    assert forall k :: k in keys ==> k in multiset(d.Keys);
    Digraph(d, keys)
  }

  /** Branch names `toDot` can print unambiguously: no double quote in them. */
  predicate Unquoted(s: string)
  {
    '"' !in s
  }

  /** Splits `s` at its first double quote: the text before it and the text after it. */
  function UpToQuote(s: string): (r: Option<(string, string)>)
    ensures r.Some? ==> Unquoted(r.value.0) && s == r.value.0 + "\"" + r.value.1
    ensures r.None? ==> Unquoted(s)
  {
    if s == [] then None
    else if s[0] == '"' then Some(([], s[1..]))
    else match UpToQuote(s[1..])
      case None => None
      case Some((a, rest)) => Some(([s[0]] + a, rest))
  }

  lemma {:induction false} UpToQuoteOf(a: string, rest: string)
    requires Unquoted(a)
    ensures UpToQuote(a + "\"" + rest) == Some((a, rest))
    decreases |a|
  {
    if a != [] {
      assert (a + "\"" + rest)[1..] == a[1..] + "\"" + rest;
      UpToQuoteOf(a[1..], rest);
      assert [a[0]] + a[1..] == a;
    } else {
      assert (a + "\"" + rest)[1..] == rest;
    }
  }

  /**
    Reads the lines `toDot` writes after its header, adding each edge to `acc`,
    up to the closing brace.
   */
  function ReadDotLines(s: string, acc: Direct): Option<Direct>
    decreases |s|, 1
  {
    if s == "}\n" then Some(acc)
    else if |s| < 3 || s[..3] != "  \"" then None
    else match UpToQuote(s[3..])
      case None => None
      case Some((b, rest)) => ReadLineEnd(b, rest, acc)
  }

  /** Reads the rest of the line of branch `b`: either `;` or an arrow to its tracked name. */
  function ReadLineEnd(b: string, rest: string, acc: Direct): Option<Direct>
    decreases |rest|, 0
  {
    if |rest| >= 2 && rest[..2] == ";\n" then ReadDotLines(rest[2..], acc[b := ""])
    else if |rest| >= 5 && rest[..5] == " -> \"" then
      match UpToQuote(rest[5..])
      case None => None
      case Some((t, rest')) =>
        if t != "" && |rest'| >= 2 && rest'[..2] == ";\n" then ReadDotLines(rest'[2..], acc[b := t])
        else None
    else None
  }

  /** Reads back a graph from the text of `toDot`. */
  function ReadDot(s: string): Option<Direct>
  {
    if |s| >= 10 && s[..10] == "digraph {\n" then ReadDotLines(s[10..], map[]) else None
  }

  lemma ReadName(b: string, rest: string, acc: Direct)
    requires Unquoted(b)
    ensures ReadDotLines("  \"" + b + "\"" + rest, acc) == ReadLineEnd(b, rest, acc)
  {
    var s := "  \"" + b + "\"" + rest;
    assert s[..3] == "  \"" && s != "}\n";
    assert s[3..] == b + "\"" + rest;
    UpToQuoteOf(b, rest);
  }

  lemma ReadSemicolon(b: string, rest: string, acc: Direct)
    ensures ReadLineEnd(b, ";\n" + rest, acc) == ReadDotLines(rest, acc[b := ""])
  {
    var semi := ";\n" + rest;
    assert semi[..2] == ";\n" && semi[2..] == rest;
  }

  lemma ReadArrow(b: string, t: string, rest: string, acc: Direct)
    requires Unquoted(t) && t != ""
    ensures ReadLineEnd(b, " -> \"" + t + "\"" + ";\n" + rest, acc) == ReadDotLines(rest, acc[b := t])
  {
    var semi := ";\n" + rest;
    var after := " -> \"" + t + "\"" + semi;
    assert after == " -> \"" + t + "\"" + ";\n" + rest;
    assert after[..2] != ";\n" by { assert after[..2][0] == ' '; }
    assert after[..5] == " -> \"";
    assert after[5..] == t + "\"" + semi;
    UpToQuoteOf(t, semi);
    assert semi[..2] == ";\n" && semi[2..] == rest;
  }

  lemma ReadDotLine(b: string, t: string, rest: string, acc: Direct)
    requires Unquoted(b) && Unquoted(t)
    ensures ReadDotLines(DotLine(b, t) + rest, acc) == ReadDotLines(rest, acc[b := t])
  {
    if t == "" {
      assert DotLine(b, t) + rest == "  \"" + b + "\"" + (";\n" + rest);
      ReadName(b, ";\n" + rest, acc);
      ReadSemicolon(b, rest, acc);
    } else {
      var after := " -> \"" + t + "\"" + ";\n" + rest;
      assert DotLine(b, t) + rest == "  \"" + b + "\"" + after;
      ReadName(b, after, acc);
      ReadArrow(b, t, rest, acc);
    }
  }

  /** The entries of `d` for `keys`. */
  function Entries(d: Direct, keys: seq<string>): (m: Direct)
    requires forall k :: k in keys ==> k in d
    ensures m.Keys == set k | k in keys
    ensures forall k :: k in m ==> m[k] == d[k]
  {
    map k | k in keys :: d[k]
  }

  lemma EntriesStep(d: Direct, keys: seq<string>, acc: Direct)
    requires keys != [] && forall k :: k in keys ==> k in d
    ensures acc[keys[0] := d[keys[0]]] + Entries(d, keys[1..]) == acc + Entries(d, keys)
  {
    var lhs := acc[keys[0] := d[keys[0]]] + Entries(d, keys[1..]);
    var rhs := acc + Entries(d, keys);
    assert forall k :: k in keys <==> k == keys[0] || k in keys[1..];
    assert lhs.Keys == rhs.Keys;
    forall k | k in lhs ensures lhs[k] == rhs[k] { }
  }

  lemma {:induction false} ReadDotLinesOf(d: Direct, keys: seq<string>, acc: Direct)
    requires forall k :: k in keys ==> k in d && Unquoted(k) && Unquoted(d[k])
    ensures ReadDotLines(DotLines(d, keys) + "}\n", acc) == Some(acc + Entries(d, keys))
    decreases |keys|
  {
    if keys == [] {
      assert acc + Entries(d, keys) == acc;
    } else {
      var b := keys[0];
      assert DotLines(d, keys) + "}\n" == DotLine(b, d[b]) + (DotLines(d, keys[1..]) + "}\n");
      ReadDotLine(b, d[b], DotLines(d, keys[1..]) + "}\n", acc);
      ReadDotLinesOf(d, keys[1..], acc[b := d[b]]);
      EntriesStep(d, keys, acc);
    }
  }

  /**
    The digraph text determines the graph: reading it back gives the direct
    map, as long as no branch name contains a double quote.
   */
  lemma DigraphParts(d: Direct, keys: seq<string>)
    requires forall k :: k in keys ==> k in d
    ensures ReadDot(Digraph(d, keys)) == ReadDotLines(DotLines(d, keys) + "}\n", map[])
  {
    var s := Digraph(d, keys);
    assert s == "digraph {\n" + (DotLines(d, keys) + "}\n");
    assert |s| >= 10 && s[..10] == "digraph {\n";
    assert s[10..] == DotLines(d, keys) + "}\n";
  }

  lemma EntriesOfAllKeys(d: Direct, keys: seq<string>)
    requires multiset(keys) == multiset(d.Keys)
    ensures forall k :: k in keys <==> k in d
    ensures Entries(d, keys) == d
  {
    assert forall k :: k in keys <==> k in multiset(keys);
  }

  lemma DotRoundTrip(d: Direct)
    requires forall b :: b in d ==> Unquoted(b) && Unquoted(d[b])
    ensures ReadDot(DotText(d)) == Some(d)
  {
    var keys := SortedOf(multiset(d.Keys));
    EntriesOfAllKeys(d, keys);
    calc {
      ReadDot(DotText(d));
      ReadDot(Digraph(d, keys));
      { DigraphParts(d, keys); }
      ReadDotLines(DotLines(d, keys) + "}\n", map[]);
      { ReadDotLinesOf(d, keys, map[]); }
      Some(map[] + Entries(d, keys));
      { assert map[] + Entries(d, keys) == Entries(d, keys); }
      Some(d);
    }
  }
}
