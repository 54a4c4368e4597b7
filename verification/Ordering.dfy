/** Rows as `ORDER BY` returns them. */
module Ordering {

  /** Text order, character by character. */
  predicate TextLess(s: string, t: string) {
    t != "" && (s == "" || s[0] < t[0] || (s[0] == t[0] && TextLess(s[1..], t[1..])))
  }

  predicate LessAt(s: string, t: string, k: nat) {
    k < |s| && k < |t| && s[k] < t[k] && forall i :: 0 <= i < k ==> s[i] == t[i]
  }

  lemma LessAtTail(s: string, t: string)
    requires s != "" && t != "" && s[0] == t[0]
    ensures (exists k: nat :: LessAt(s[1..], t[1..], k)) <==> exists k: nat :: LessAt(s, t, k)
  {
    if k: nat :| LessAt(s[1..], t[1..], k) {
      assert LessAt(s, t, k + 1);
    }
    if k: nat :| LessAt(s, t, k) {
      assert k > 0 && LessAt(s[1..], t[1..], k - 1);
    }
  }

  /** Two texts are ordered by the first place where they differ; a proper prefix comes first. */
  lemma {:induction false} TextLessIff(s: string, t: string)
    ensures TextLess(s, t) <==> s < t || exists k: nat :: LessAt(s, t, k)
  {
    if s == "" || t == "" {
    } else if s[0] == t[0] {
      TextLessIff(s[1..], t[1..]);
      LessAtTail(s, t);
      assert s == [s[0]] + s[1..] && t == [t[0]] + t[1..];
    } else if s[0] < t[0] {
      assert LessAt(s, t, 0);
    }
  }

  lemma {:induction false} TextLessIrreflexive(s: string)
    ensures !TextLess(s, s)
  {
    if s == "" {
    } else {
      TextLessIrreflexive(s[1..]);
    }
  }

  lemma {:induction false} TextLessTransitive(s: string, t: string, u: string)
    requires TextLess(s, t) && TextLess(t, u)
    ensures TextLess(s, u)
  {
    if s == "" || s[0] != t[0] || t[0] != u[0] {
    } else {
      TextLessTransitive(s[1..], t[1..], u[1..]);
    }
  }

  lemma {:induction false} TextLessTotal(s: string, t: string)
    ensures s != t ==> TextLess(s, t) || TextLess(t, s)
  {
    if s == "" || t == "" || s[0] != t[0] {
    } else {
      TextLessTotal(s[1..], t[1..]);
      assert s == [s[0]] + s[1..] && t == [t[0]] + t[1..];
    }
  }

  type Less<!T> = (T, T) -> bool

  ghost predicate StrictOrder<T(!new)>(less: Less<T>) {
    && (forall a :: !less(a, a))
    && (forall a, b, c :: less(a, b) && less(b, c) ==> less(a, c))
  }

  predicate TotalOn<T>(less: Less<T>, s: seq<T>) {
    forall i, j :: 0 <= i < j < |s| ==> less(s[i], s[j]) || less(s[j], s[i])
  }

  predicate Ordered<T>(less: Less<T>, s: seq<T>) {
    forall i, j :: 0 <= i < j < |s| ==> less(s[i], s[j])
  }

  function Insert<T>(less: Less<T>, s: seq<T>, x: T): seq<T> {
    if s == [] || less(x, s[0]) then [x] + s else [s[0]] + Insert(less, s[1..], x)
  }

  function Sort<T>(less: Less<T>, s: seq<T>): seq<T> {
    if s == [] then [] else Insert(less, Sort(less, s[..|s| - 1]), s[|s| - 1])
  }

  function Select<T>(keep: T -> bool, s: seq<T>): seq<T> {
    if s == [] then []
    else Select(keep, s[..|s| - 1]) + (if keep(s[|s| - 1]) then [s[|s| - 1]] else [])
  }

  lemma {:induction false} InsertMembers<T(!new)>(less: Less<T>, s: seq<T>, x: T)
    ensures |Insert(less, s, x)| == |s| + 1
    ensures forall y :: y in Insert(less, s, x) <==> y == x || y in s
  {
    if s == [] || less(x, s[0]) {
    } else {
      InsertMembers(less, s[1..], x);
    }
  }

  lemma {:induction false} InsertOrdered<T(!new)>(less: Less<T>, s: seq<T>, x: T)
    requires StrictOrder(less) && Ordered(less, s) && forall i :: 0 <= i < |s| ==> less(x, s[i]) || less(s[i], x)
    ensures Ordered(less, Insert(less, s, x))
  {
    if s == [] {
    } else {
      if less(x, s[0]) {
        assert forall i :: 0 <= i < |s| ==> less(x, s[i]);
      } else {
        var rest := Insert(less, s[1..], x);
        InsertOrdered(less, s[1..], x);
        InsertMembers(less, s[1..], x);
        forall i | 0 <= i < |rest| ensures less(s[0], rest[i]) {
          assert rest[i] in rest;
        }
      }
    }
  }

  lemma {:induction false} SortMembers<T(!new)>(less: Less<T>, s: seq<T>)
    ensures |Sort(less, s)| == |s|
    ensures forall y :: y in Sort(less, s) <==> y in s
  {
    if s == [] {
    } else {
      var init, last := s[..|s| - 1], s[|s| - 1];
      SortMembers(less, init);
      InsertMembers(less, Sort(less, init), last);
      assert s == init + [last];
    }
  }

  lemma {:induction false} SortOrdered<T(!new)>(less: Less<T>, s: seq<T>)
    requires StrictOrder(less) && TotalOn(less, s)
    ensures Ordered(less, Sort(less, s))
  {
    if s == [] {
    } else {
      var init, last := s[..|s| - 1], s[|s| - 1];
      var sorted := Sort(less, init);
      SortOrdered(less, init);
      SortMembers(less, init);
      forall i | 0 <= i < |sorted| ensures less(last, sorted[i]) || less(sorted[i], last) {
        assert sorted[i] in init;
        var k :| 0 <= k < |init| && init[k] == sorted[i];
        assert s[k] == sorted[i];
      }
      InsertOrdered(less, sorted, last);
    }
  }

  lemma {:induction false} SelectMembers<T(!new)>(keep: T -> bool, s: seq<T>)
    ensures forall y :: y in Select(keep, s) <==> y in s && keep(y)
  {
    if s == [] {
    } else {
      SelectMembers(keep, s[..|s| - 1]);
      assert s == s[..|s| - 1] + [s[|s| - 1]];
    }
  }

  /** Selected rows stay pairwise comparable. */
  lemma {:induction false} SelectTotal<T(!new)>(less: Less<T>, keep: T -> bool, s: seq<T>)
    requires TotalOn(less, s)
    ensures TotalOn(less, Select(keep, s))
  {
    if s == [] {
    } else {
      var init, last := s[..|s| - 1], s[|s| - 1];
      SelectTotal(less, keep, init);
      SelectMembers(keep, init);
      var chosen := Select(keep, init);
      forall i | 0 <= i < |chosen| ensures less(chosen[i], last) || less(last, chosen[i]) {
        var y := chosen[i];
        assert y in Select(keep, init);
        assert y in init;
        var k :| 0 <= k < |init| && init[k] == y;
        assert s[k] == y;
      }
    }
  }

  /** Rows in order are determined by which rows they are. */
  lemma {:induction false} OrderIsUnique<T(!new)>(less: Less<T>, a: seq<T>, b: seq<T>)
    requires StrictOrder(less) && Ordered(less, a) && Ordered(less, b) && forall x :: x in a <==> x in b
    ensures a == b
  {
    assert |b| > 0 ==> b[0] in b;
    if a == [] {
    } else {
      assert a[0] in b;
      assert b[0] in a;
      var x := a[0];
      assert x == b[0];
      forall y ensures y in a[1..] <==> y in b[1..] {
        assert y in a[1..] <==> y in a && y != x;
        assert y in b[1..] <==> y in b && y != x;
      }
      OrderIsUnique(less, a[1..], b[1..]);
    }
  }

  /** `SELECT … WHERE keep ORDER BY less`. */
  function Query<T>(less: Less<T>, keep: T -> bool, s: seq<T>): seq<T> {
    Sort(less, Select(keep, s))
  }

  lemma QueryIs<T(!new)>(less: Less<T>, keep: T -> bool, s: seq<T>)
    requires StrictOrder(less) && TotalOn(less, s)
    ensures Ordered(less, Query(less, keep, s))
    ensures forall y :: y in Query(less, keep, s) <==> y in s && keep(y)
  {
    SelectTotal(less, keep, s);
    SelectMembers(keep, s);
    SortOrdered(less, Select(keep, s));
    SortMembers(less, Select(keep, s));
  }

  /** The rows behind a row of the result are the rest of the result. */
  lemma QueryBehind<T(!new)>(less: Less<T>, keep: T -> bool, later: T -> bool, s: seq<T>, m: nat)
    requires StrictOrder(less) && TotalOn(less, s)
    requires 0 < m <= |Query(less, keep, s)|
    requires forall y :: later(y) <==> keep(y) && less(Query(less, keep, s)[m - 1], y)
    ensures Query(less, later, s) == Query(less, keep, s)[m..]
  {
    var all := Query(less, keep, s);
    QueryIs(less, keep, s);
    QueryIs(less, later, s);
    forall k | 0 <= k < |all| ensures less(all[m - 1], all[k]) <==> k >= m {
      if k < m - 1 {
        assert less(all[k], all[m - 1]);
      }
    }
    forall y ensures y in Query(less, later, s) <==> y in all[m..] {
      if y in all && less(all[m - 1], y) {
        var k :| 0 <= k < |all| && all[k] == y;
        assert all[m..][k - m] == y;
      }
    }
    OrderIsUnique(less, Query(less, later, s), all[m..]);
  }
}
