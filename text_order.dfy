/**
  Strings as Go compares and sorts them. Go's `sort.Strings` orders by the
  bytes of the UTF-8 encoding, which is the order of the code points; a Dafny
  string is a sequence of code points, so the order is lexicographic on `char`.
  The module also holds the joining and repetition helpers and the option
  type shared by the other modules.
 */
module TextOrder {

  /** Lexicographic order on strings: `a` sorts no later than `b`. */
  predicate LessEq(a: string, b: string)
    decreases |a|
  {
    a == [] || (b != [] && (a[0] < b[0] || (a[0] == b[0] && LessEq(a[1..], b[1..]))))
  }

  lemma {:induction false} LessEqTotal(a: string, b: string)
    ensures LessEq(a, b) || LessEq(b, a)
    decreases |a|
  {
    if a != [] && b != [] && a[0] == b[0] {
      LessEqTotal(a[1..], b[1..]);
    }
  }

  lemma {:induction false} LessEqAntisymmetric(a: string, b: string)
    requires LessEq(a, b) && LessEq(b, a)
    ensures a == b
    decreases |a|
  {
    if a != [] {
      LessEqAntisymmetric(a[1..], b[1..]);
      assert a == [a[0]] + a[1..] && b == [b[0]] + b[1..];
    }
  }

  lemma {:induction false} LessEqTransitive(a: string, b: string, c: string)
    requires LessEq(a, b) && LessEq(b, c)
    ensures LessEq(a, c)
    decreases |a|
  {
    if a != [] && a[0] == b[0] && b[0] == c[0] {
      LessEqTransitive(a[1..], b[1..], c[1..]);
    }
  }

  /** Every pair of positions is in order (duplicates allowed). */
  predicate Sorted(s: seq<string>)
  {
    forall i, j :: 0 <= i < j < |s| ==> LessEq(s[i], s[j])
  }

  /** `x` is an element of `m` that sorts no later than any other. */
  ghost predicate IsMinimum(x: string, m: multiset<string>)
  {
    x in m && forall y :: y in m ==> LessEq(x, y)
  }

  /** A smallest element of a non-empty multiset exists. */
  lemma {:induction false} MinimumExists(m: multiset<string>)
    requires m != multiset{}
    ensures exists x :: IsMinimum(x, m)
    decreases |m|
  {
    var x :| x in m;
    var rest := m - multiset{x};
    if rest == multiset{} {
      assert m == rest + multiset{x};
      LessEqTotal(x, x);
      assert IsMinimum(x, m);
    } else {
      MinimumExists(rest);
      var z :| IsMinimum(z, rest);
      LessEqTotal(x, z);
      if LessEq(x, z) {
        forall y | y in m ensures LessEq(x, y) {
          if y == x { LessEqTotal(x, x); } else { assert y in rest; LessEqTransitive(x, z, y); }
        }
        assert IsMinimum(x, m);
      } else {
        forall y | y in m ensures LessEq(z, y) {
          if y != x { assert y in rest; }
        }
        assert IsMinimum(z, m);
      }
    }
  }

  /**
    The sorted arrangement of a multiset of strings: what `sort.Strings` leaves
    in a slice holding those strings, whatever their order before.
   */
  ghost function SortedOf(m: multiset<string>): (r: seq<string>)
    ensures Sorted(r) && multiset(r) == m
  {
    SortedExists(m);
    var s :| Sorted(s) && multiset(s) == m;
    s
  }

  /** Every multiset of strings has a sorted arrangement. */
  lemma {:induction false} SortedExists(m: multiset<string>)
    ensures exists s :: Sorted(s) && multiset(s) == m
    decreases |m|
  {
    if m == multiset{} {
      assert Sorted([]) && multiset([]) == m;
    } else {
      MinimumExists(m);
      var x :| IsMinimum(x, m);
      SortedExists(m - multiset{x});
      var tail :| Sorted(tail) && multiset(tail) == m - multiset{x};
      PrependMinimum(x, tail, m);
    }
  }

  lemma PrependMinimum(x: string, tail: seq<string>, m: multiset<string>)
    requires IsMinimum(x, m)
    requires Sorted(tail) && multiset(tail) == m - multiset{x}
    ensures Sorted([x] + tail) && multiset([x] + tail) == m
  {
    forall j | 0 <= j < |tail| ensures LessEq(x, tail[j]) {
      assert tail[j] in multiset(tail);
    }
    assert multiset([x] + tail) == multiset{x} + multiset(tail);
  }

  lemma MultisetCons(s: seq<string>)
    requires s != []
    ensures multiset(s) == multiset{s[0]} + multiset(s[1..])
  {
    assert s == [s[0]] + s[1..];
  }

  /** Two sorted sequences with the same elements are the same sequence. */
  lemma {:induction false} SortedUnique(a: seq<string>, b: seq<string>)
    requires Sorted(a) && Sorted(b) && multiset(a) == multiset(b)
    ensures a == b
    decreases |a|
  {
    if a != [] {
      assert |b| == |a| by { assert |multiset(a)| == |a| && |multiset(b)| == |b|; }
      SameFirst(a, b);
      SameTail(a, b);
      SortedUnique(a[1..], b[1..]);
      assert a == [a[0]] + a[1..] && b == [b[0]] + b[1..];
    }
  }

  lemma SameTail(a: seq<string>, b: seq<string>)
    requires a != [] && b != [] && a[0] == b[0] && multiset(a) == multiset(b)
    ensures multiset(a[1..]) == multiset(b[1..])
  {
    MultisetCons(a);
    MultisetCons(b);
    assert multiset(a[1..]) == multiset(a) - multiset{a[0]};
    assert multiset(b[1..]) == multiset(b) - multiset{b[0]};
  }

  /** Two non-empty sorted sequences with the same elements start with the same element. */
  lemma SameFirst(a: seq<string>, b: seq<string>)
    requires Sorted(a) && Sorted(b) && multiset(a) == multiset(b) && a != [] && b != []
    ensures a[0] == b[0]
  {
    assert a[0] in multiset(b) && b[0] in multiset(a);
    var i :| 0 <= i < |b| && b[i] == a[0];
    var j :| 0 <= j < |a| && a[j] == b[0];
    assert LessEq(b[0], a[0]) by { if i == 0 { LessEqTotal(b[0], b[0]); } }
    assert LessEq(a[0], b[0]) by { if j == 0 { LessEqTotal(a[0], a[0]); } }
    LessEqAntisymmetric(a[0], b[0]);
  }

  /** `sort.Strings` on a slice, as insertion of each element in turn. */
  method SortStrings(a: seq<string>) returns (r: seq<string>)
    ensures r == SortedOf(multiset(a))
  {
    r := [];
    for i := 0 to |a|
      invariant Sorted(r) && multiset(r) == multiset(a[..i])
    {
      r := Insert(r, a[i]);
      assert a[..i + 1] == a[..i] + [a[i]];
    }
    assert a[..|a|] == a;
    SortedUnique(r, SortedOf(multiset(a)));
  }

  /** Places `x` after every element that sorts no later than it. */
  method Insert(s: seq<string>, x: string) returns (r: seq<string>)
    requires Sorted(s)
    ensures Sorted(r) && multiset(r) == multiset(s) + multiset{x}
  {
    var k := 0;
    while k < |s| && LessEq(s[k], x)
      invariant 0 <= k <= |s|
      invariant forall j :: 0 <= j < k ==> LessEq(s[j], x)
    {
      k := k + 1;
    }
    if k < |s| {
      LessEqTotal(s[k], x);
      forall j | k <= j < |s| ensures LessEq(x, s[j]) {
        if j > k { LessEqTransitive(x, s[k], s[j]); }
      }
    }
    r := s[..k] + [x] + s[k..];
    InsertAt(s, k, x);
  }

  /** Putting `x` between the elements that sort no later and those that sort no earlier keeps the order. */
  lemma InsertAt(s: seq<string>, k: nat, x: string)
    requires Sorted(s) && k <= |s|
    requires forall j :: 0 <= j < k ==> LessEq(s[j], x)
    requires forall j :: k <= j < |s| ==> LessEq(x, s[j])
    ensures Sorted(s[..k] + [x] + s[k..])
    ensures multiset(s[..k] + [x] + s[k..]) == multiset(s) + multiset{x}
  {
    var r := s[..k] + [x] + s[k..];
    forall i, j | 0 <= i < j < |r| ensures LessEq(r[i], r[j]) {
      if j < k || i > k {
      } else if i == k {
        assert r[j] == s[j - 1];
      } else if j == k {
        assert r[i] == s[i];
      } else {
        assert r[i] == s[i] && r[j] == s[j - 1];
      }
    }
    assert s == s[..k] + s[k..];
  }

  /** A value that may be missing. */
  datatype Option<T> = None | Some(value: T)

  /** Regrouping a concatenation of three strings. */
  lemma ConcatAssoc(a: string, b: string, c: string)
    ensures (a + b) + c == a + (b + c)
  {
  }

  /** `strings.Join`: the elements with `sep` between each neighbouring pair. */
  function Join(parts: seq<string>, sep: string): (r: string)
    ensures parts == [] ==> r == []
    ensures |parts| == 1 ==> r == parts[0]
  {
    if parts == [] then []
    else if |parts| == 1 then parts[0]
    else parts[0] + sep + Join(parts[1..], sep)
  }

  /** `strings.Repeat`: `unit` written `n` times in a row. */
  function Repeat(unit: string, n: nat): (r: string)
    ensures |r| == n * |unit|
  {
    if n == 0 then [] else unit + Repeat(unit, n - 1)
  }
}
