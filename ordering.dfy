/** The order Python uses when it sorts strings: lexicographic by code point,
    a proper prefix before any of its extensions. Allele tokens are sorted
    with it, and so are marker identifiers. */
module Ordering {

  /** `a <= b` in code-point lexicographic order. */
  predicate StrLe(a: string, b: string)
    decreases |a|
  {
    |a| == 0 || (|b| > 0 && (a[0] < b[0] || (a[0] == b[0] && StrLe(a[1..], b[1..]))))
  }

  predicate StrLt(a: string, b: string)
  {
    StrLe(a, b) && a != b
  }

  lemma {:induction false} StrLeRefl(a: string)
    ensures StrLe(a, a)
    decreases |a|
  {
    if |a| > 0 { StrLeRefl(a[1..]); }
  }

  lemma {:induction false} StrLeTotal(a: string, b: string)
    ensures StrLe(a, b) || StrLe(b, a)
    decreases |a|
  {
    if |a| > 0 && |b| > 0 && a[0] == b[0] { StrLeTotal(a[1..], b[1..]); }
  }

  lemma {:induction false} StrLeAntisym(a: string, b: string)
    requires StrLe(a, b) && StrLe(b, a)
    ensures a == b
    decreases |a|
  {
    if |a| > 0 {
      StrLeAntisym(a[1..], b[1..]);
      assert a == [a[0]] + a[1..] && b == [b[0]] + b[1..];
    }
  }

  lemma {:induction false} StrLeTrans(a: string, b: string, c: string)
    requires StrLe(a, b) && StrLe(b, c)
    ensures StrLe(a, c)
    decreases |a|
  {
    if |a| > 0 && a[0] == b[0] && b[0] == c[0] { StrLeTrans(a[1..], b[1..], c[1..]); }
  }

  /** Ascending (non-strict) order of a list of strings. */
  predicate Sorted(s: seq<string>)
  {
    forall i, j :: 0 <= i < j < |s| ==> StrLe(s[i], s[j])
  }

  /** Strictly ascending order: sorted and free of duplicates. */
  predicate StrictlyAscending(s: seq<string>)
  {
    forall i, j :: 0 <= i < j < |s| ==> StrLt(s[i], s[j])
  }

  /** Inserts `x` before the first element it does not exceed. */
  function Insert(x: string, s: seq<string>): seq<string>
    decreases |s|
  {
    if s == [] || StrLe(x, s[0]) then [x] + s
    else [s[0]] + Insert(x, s[1..])
  }

  /** The list `sorted(s)` returns (an insertion sort: Python's own sort is
      a library routine whose result is fixed by the lemmas below). */
  function Sort(s: seq<string>): seq<string>
    decreases |s|
  {
    if s == [] then [] else Insert(s[0], Sort(s[1..]))
  }

  /** A string no greater than the head of a sorted list may go in front. */
  lemma InsertFront(x: string, s: seq<string>)
    requires Sorted(s) && (s == [] || StrLe(x, s[0]))
    ensures Sorted([x] + s)
  {
    forall j | 0 < j < |s| ensures StrLe(x, s[j]) { StrLeTrans(x, s[0], s[j]); }
  }

  /** The head of a sorted list may go in front of any rearrangement of its
      tail with one larger string added. */
  lemma InsertBehind(x: string, s: seq<string>, t: seq<string>)
    requires Sorted(s) && s != [] && StrLe(s[0], x)
    requires Sorted(t) && multiset(t) == multiset(s[1..]) + multiset{x}
    ensures Sorted([s[0]] + t)
  {
    forall j | 0 <= j < |t| ensures StrLe(s[0], t[j]) {
      assert t[j] in multiset(t);
      if t[j] != x {
        assert t[j] in multiset(s[1..]);
        var k :| 0 <= k < |s[1..]| && s[1..][k] == t[j];
        assert s[k + 1] == t[j];
      }
    }
  }

  /** Inserting into a sorted list keeps it sorted and adds exactly `x`. */
  lemma {:induction false} InsertSpec(x: string, s: seq<string>)
    requires Sorted(s)
    ensures Sorted(Insert(x, s))
    ensures multiset(Insert(x, s)) == multiset(s) + multiset{x}
    decreases |s|
  {
    if s == [] || StrLe(x, s[0]) {
      InsertFront(x, s);
    } else {
      StrLeTotal(x, s[0]);
      InsertSpec(x, s[1..]);
      InsertBehind(x, s, Insert(x, s[1..]));
      assert s == [s[0]] + s[1..];
    }
  }

  /** `Sort` returns an ascending rearrangement of its input. */
  lemma {:induction false} SortSpec(s: seq<string>)
    ensures Sorted(Sort(s))
    ensures multiset(Sort(s)) == multiset(s)
    ensures |Sort(s)| == |s|
    decreases |s|
  {
    if s != [] {
      SortSpec(s[1..]);
      InsertSpec(s[0], Sort(s[1..]));
      assert s == [s[0]] + s[1..];
    }
    assert |Sort(s)| == |multiset(Sort(s))|;
  }

  /** Two sorted lists holding the same strings start with the same string. */
  lemma SortedHeadsEqual(a: seq<string>, b: seq<string>)
    requires Sorted(a) && Sorted(b) && a != []
    requires multiset(a) == multiset(b)
    ensures b != [] && a[0] == b[0]
  {
    assert a[0] in multiset(b);
    var j :| 0 <= j < |b| && b[j] == a[0];
    assert b[0] in multiset(a);
    var i :| 0 <= i < |a| && a[i] == b[0];
    if j == 0 { StrLeRefl(b[0]); }
    if i == 0 { StrLeRefl(a[0]); }
    assert StrLe(b[0], b[j]) && StrLe(a[0], a[i]);
    StrLeAntisym(a[0], b[0]);
  }

  /** Two sorted lists that hold the same strings are the same list: the
      order is total, so sorting leaves no choice. */
  lemma {:induction false} SortedUnique(a: seq<string>, b: seq<string>)
    requires Sorted(a) && Sorted(b)
    requires multiset(a) == multiset(b)
    ensures a == b
    decreases |a|
  {
    if a == [] {
      assert |b| == |multiset(b)| == 0;
    } else {
      SortedHeadsEqual(a, b);
      assert a == [a[0]] + a[1..] && b == [b[0]] + b[1..];
      assert multiset(a) == multiset([a[0]]) + multiset(a[1..]);
      assert multiset(b) == multiset([b[0]]) + multiset(b[1..]);
      assert multiset(a[1..]) == multiset(a) - multiset([a[0]]);
      assert multiset(b[1..]) == multiset(b) - multiset([b[0]]);
      SortedUnique(a[1..], b[1..]);
    }
  }

  /** Sorting depends only on which strings are present, how often: any
      rearrangement of the input sorts to the same list. */
  lemma SortPermutationInvariant(s: seq<string>, t: seq<string>)
    requires multiset(s) == multiset(t)
    ensures Sort(s) == Sort(t)
  {
    SortSpec(s);
    SortSpec(t);
    SortedUnique(Sort(s), Sort(t));
  }

  /** Sorting a sorted list changes nothing. */
  lemma SortOfSorted(s: seq<string>)
    requires Sorted(s)
    ensures Sort(s) == s
  {
    SortSpec(s);
    SortedUnique(Sort(s), s);
  }

  /** Sorting a two-element list yields the two strings in ascending order. */
  lemma SortPair(a: string, b: string)
    ensures Sort([a, b]) == (if StrLe(a, b) then [a, b] else [b, a])
    ensures Sort([a, b]) == Sort([b, a])
  {
    StrLeTotal(a, b);
    if StrLe(a, b) { SortOfSorted([a, b]); SortPermutationInvariant([a, b], [b, a]); }
    else { SortOfSorted([b, a]); SortPermutationInvariant([a, b], [b, a]); }
  }

  predicate IsMin(m: string, s: set<string>)
  {
    m in s && forall y :: y in s ==> StrLe(m, y)
  }

  /** Every finite non-empty set of strings has a least element. */
  lemma {:induction false} MinExists(s: set<string>)
    requires s != {}
    ensures exists m :: IsMin(m, s)
    decreases |s|
  {
    var x :| x in s;
    if s == {x} {
      StrLeRefl(x);
      assert IsMin(x, s);
    } else {
      MinExists(s - {x});
      var m :| IsMin(m, s - {x});
      StrLeTotal(m, x);
      if StrLe(m, x) {
        assert IsMin(m, s);
      } else {
        forall y | y in s ensures StrLe(x, y) {
          if y == x { StrLeRefl(x); } else { StrLeTrans(x, m, y); }
        }
        assert IsMin(x, s);
      }
    }
  }

  /** The elements of a finite set of strings, listed in ascending order:
      the list `sorted(some_set)` returns. */
  ghost function Ascending(s: set<string>): (r: seq<string>)
    ensures StrictlyAscending(r)
    ensures forall x :: x in r <==> x in s
    ensures |r| == |s|
    decreases |s|
  {
    if s == {} then []
    else
      MinExists(s);
      var m :| IsMin(m, s);
      var rest := Ascending(s - {m});
      assert forall j :: 0 <= j < |rest| ==> StrLt(m, rest[j]) by {
        forall j | 0 <= j < |rest| ensures StrLt(m, rest[j]) { assert rest[j] in s - {m}; }
      }
      [m] + rest
  }

  /** The head of a strictly ascending list is its least element. */
  lemma HeadIsLeast(r: seq<string>, y: string)
    requires StrictlyAscending(r) && y in r
    ensures StrLe(r[0], y)
  {
    var k :| 0 <= k < |r| && r[k] == y;
    if k == 0 { StrLeRefl(y); }
  }

  /** Two strictly ascending lists with the same elements are equal. */
  lemma {:induction false} StrictListingsEqual(r: seq<string>, a: seq<string>)
    requires StrictlyAscending(r) && StrictlyAscending(a)
    requires forall x :: x in r <==> x in a
    ensures r == a
    decreases |r|
  {
    assert a != [] ==> a[0] in r;
    assert r != [] ==> r[0] in a;
    if r != [] {
      HeadIsLeast(r, a[0]);
      HeadIsLeast(a, r[0]);
      StrLeAntisym(r[0], a[0]);
      forall x ensures x in r[1..] <==> x in a[1..] {
        if x in r[1..] {
          var k :| 0 <= k < |r[1..]| && r[1..][k] == x;
          assert StrLt(r[0], r[k + 1]) && r[k + 1] == x && x in r;
          var j :| 0 <= j < |a| && a[j] == x;
          assert a[1..][j - 1] == x;
        }
        if x in a[1..] {
          var k :| 0 <= k < |a[1..]| && a[1..][k] == x;
          assert StrLt(a[0], a[k + 1]) && a[k + 1] == x && x in a;
          var j :| 0 <= j < |r| && r[j] == x;
          assert r[1..][j - 1] == x;
        }
      }
      StrictListingsEqual(r[1..], a[1..]);
      assert r == [r[0]] + r[1..] && a == [a[0]] + a[1..];
    }
  }

  /** A strictly ascending listing of a set is unique: it is `Ascending(s)`. */
  lemma AscendingUnique(r: seq<string>, s: set<string>)
    requires StrictlyAscending(r)
    requires forall x :: x in r <==> x in s
    ensures r == Ascending(s)
  {
    StrictListingsEqual(r, Ascending(s));
  }

  /** `sorted(markers)` for a set of marker identifiers: repeatedly takes the
      least identifier not yet listed. */
  method SortedMarkers(s: set<string>) returns (r: seq<string>)
    ensures r == Ascending(s)
  {
    var rest := s;
    r := [];
    while rest != {}
      invariant rest <= s
      invariant StrictlyAscending(r)
      invariant forall x :: x in r <==> x in s && x !in rest
      invariant forall i, y :: 0 <= i < |r| && y in rest ==> StrLt(r[i], y)
      decreases rest
    {
      MinExists(rest);
      var m :| m in rest && forall y :: y in rest ==> StrLe(m, y);
      forall i | 0 <= i < |r| ensures StrLt(r[i], m) { assert m in rest; }
      r := r + [m];
      rest := rest - {m};
      forall i, y | 0 <= i < |r| && y in rest ensures StrLt(r[i], y) {
        if i == |r| - 1 {
          assert StrLe(m, y) && y != m;
        } else {
          assert StrLt(r[i], y);
        }
      }
    }
    AscendingUnique(r, s);
  }
}
