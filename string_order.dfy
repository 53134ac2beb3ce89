/** Python's `<` on `str` (code point by code point, a proper prefix first) and
    `sorted(...)` of a set of distinct strings. */
module StringOrder {

  /** Lexicographic order, stated directly: `a` is a proper prefix of `b`, or at the first
      position where they differ `a` has the smaller character. */
  ghost predicate LexBelow(a: string, b: string)
  {
    || (|a| < |b| && a == b[..|a|])
    || (exists i :: 0 <= i < |a| && i < |b| && a[..i] == b[..i] && a[i] < b[i])
  }

  /** Python's `a < b` on `str`, comparing from the first character on. */
  predicate Less(a: string, b: string)
    ensures Less(a, b) <==> LexBelow(a, b)
  {
    if a == [] then b != []
    else if b == [] then false
    else if a[0] != b[0] then (LexBelowFirst(a, b); a[0] < b[0])
    else (LexBelowTail(a, b); Less(a[1..], b[1..]))
  }

  lemma LexBelowFirst(a: string, b: string)
    requires a != [] && b != [] && a[0] != b[0]
    ensures LexBelow(a, b) <==> a[0] < b[0]
  {
    if a[0] < b[0] {
      assert a[..0] == b[..0];
    }
  }

  lemma LexBelowTail(a: string, b: string)
    requires a != [] && b != [] && a[0] == b[0]
    ensures LexBelow(a, b) <==> LexBelow(a[1..], b[1..])
  {
    var a', b' := a[1..], b[1..];
    if |a| < |b| && a == b[..|a|] {
      assert a' == b'[..|a'|];
    }
    if |a'| < |b'| && a' == b'[..|a'|] {
      assert a == [a[0]] + a' && b[..|a|] == [b[0]] + b'[..|a'|];
    }
    if i :| 0 <= i < |a| && i < |b| && a[..i] == b[..i] && a[i] < b[i] {
      assert i > 0;
      assert a'[..i - 1] == a[..i][1..] && b'[..i - 1] == b[..i][1..];
      assert a'[i - 1] < b'[i - 1];
    }
    if j :| 0 <= j < |a'| && j < |b'| && a'[..j] == b'[..j] && a'[j] < b'[j] {
      assert a[..j + 1] == [a[0]] + a'[..j] && b[..j + 1] == [b[0]] + b'[..j];
      assert a[j + 1] < b[j + 1];
    }
  }

  lemma {:induction false} LessIrreflexive(a: string)
    ensures !Less(a, a)
  {
    if a != [] { LessIrreflexive(a[1..]); }
  }

  lemma {:induction false} LessAsymmetric(a: string, b: string)
    requires Less(a, b)
    ensures !Less(b, a)
  {
    if a != [] && b != [] && a[0] == b[0] { LessAsymmetric(a[1..], b[1..]); }
  }

  lemma {:induction false} LessTransitive(a: string, b: string, c: string)
    requires Less(a, b) && Less(b, c)
    ensures Less(a, c)
  {
    if a != [] && a[0] == b[0] && b[0] == c[0] { LessTransitive(a[1..], b[1..], c[1..]); }
  }

  /** Two different strings are always ordered one way or the other. */
  lemma {:induction false} LessTotal(a: string, b: string)
    requires a != b
    ensures Less(a, b) || Less(b, a)
  {
    if a != [] && b != [] && a[0] == b[0] {
      assert a == [a[0]] + a[1..] && b == [b[0]] + b[1..];
      LessTotal(a[1..], b[1..]);
    }
  }

  predicate StrictlySorted(s: seq<string>)
  {
    forall i, j :: 0 <= i < j < |s| ==> Less(s[i], s[j])
  }

  /** `r` is `sorted(s)`: the elements of the set in increasing order, each once. */
  predicate SortedListOf(r: seq<string>, s: set<string>)
  {
    StrictlySorted(r) && (forall x :: x in r ==> x in s) && (forall x :: x in s ==> x in r)
  }

  /** There is only one sorted list of a set, so `sorted` is determined by its contract. */
  lemma {:induction false} SortedListUnique(r1: seq<string>, r2: seq<string>, s: set<string>)
    requires SortedListOf(r1, s) && SortedListOf(r2, s)
    ensures r1 == r2
  {
    if r1 != [] && r2 != [] {
      if r1[0] != r2[0] {
        LessTotal(r1[0], r2[0]);
        if Less(r1[0], r2[0]) {
          LeastOfSorted(r2, r1[0]);
        } else {
          LeastOfSorted(r1, r2[0]);
        }
        assert false;
      }
      var s' := s - {r1[0]};
      TailSortedList(r1, s);
      TailSortedList(r2, s);
      SortedListUnique(r1[1..], r2[1..], s');
      assert r1 == [r1[0]] + r1[1..] && r2 == [r2[0]] + r2[1..];
    } else {
      SortedListEmpty(r1, s);
      SortedListEmpty(r2, s);
    }
  }

  /** A sorted list holds each element of the set exactly once. */
  lemma {:induction false} SortedListLength(r: seq<string>, s: set<string>)
    requires SortedListOf(r, s)
    ensures |r| == |s|
  {
    if r == [] {
      SortedListEmpty(r, s);
    } else {
      TailSortedList(r, s);
      SortedListLength(r[1..], s - {r[0]});
    }
  }

  lemma SortedListEmpty(r: seq<string>, s: set<string>)
    requires SortedListOf(r, s)
    ensures r == [] <==> s == {}
  {
    if r != [] {
      assert r[0] in s;
    }
  }

  lemma LeastOfSorted(r: seq<string>, x: string)
    requires StrictlySorted(r) && x in r && r != []
    ensures !Less(x, r[0])
  {
    var i :| 0 <= i < |r| && r[i] == x;
    if i == 0 {
      LessIrreflexive(x);
    } else {
      LessAsymmetric(r[0], x);
    }
  }

  lemma TailSortedList(r: seq<string>, s: set<string>)
    requires SortedListOf(r, s) && r != []
    ensures SortedListOf(r[1..], s - {r[0]})
  {
    forall x | x in r[1..]
      ensures x != r[0]
    {
      var i :| 1 <= i < |r| && r[i] == x;
      LessIrreflexive(r[0]);
    }
  }

  /** The least element of a non-empty set (the first element `sorted` yields). */
  method Least(s: set<string>) returns (m: string)
    requires s != {}
    ensures m in s
    ensures forall x :: x in s && x != m ==> Less(m, x)
  {
    m :| m in s;
    var rest := s - {m};
    while rest != {}
      invariant m in s && rest <= s
      invariant forall x :: x in s - rest && x != m ==> Less(m, x)
      decreases rest
    {
      var x :| x in rest;
      if Less(x, m) {
        forall y | y in s - rest && y != x
          ensures Less(x, y)
        {
          if y != m { LessTransitive(x, m, y); }
        }
        m := x;
      } else if x != m {
        LessTotal(x, m);
      }
      rest := rest - {x};
    }
  }

  /** `sorted(s)` for a set of strings, by repeatedly taking the least remaining one. */
  method SortedList(s: set<string>) returns (r: seq<string>)
    ensures SortedListOf(r, s)
  {
    r := [];
    var rest := s;
    while rest != {}
      invariant rest <= s
      invariant StrictlySorted(r)
      invariant forall x :: x in r <==> x in s && x !in rest
      invariant forall i, x :: 0 <= i < |r| && x in rest ==> Less(r[i], x)
      decreases rest
    {
      var m := Least(rest);
      r := r + [m];
      rest := rest - {m};
    }
  }
}
