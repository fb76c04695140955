/** Table rows as sequences, and the two queryset operations the list views
    chain together: `.filter(...)` and `.distinct()`. A queryset's rows are
    kept in the order of the table they come from. */
module Querysets {

  /** `queryset.filter(keep)`: the rows satisfying `keep`, in their original order. */
  function Where<T(==,!new)>(rows: seq<T>, keep: T -> bool): (r: seq<T>)
    ensures |r| <= |rows|
  {
    if rows == [] then []
    else if keep(rows[0]) then [rows[0]] + Where(rows[1..], keep)
    else Where(rows[1..], keep)
  }

  /** The rows a filter keeps are exactly the rows of the table that pass it. */
  lemma {:induction false} WhereMembers<T(!new)>(rows: seq<T>, keep: T -> bool)
    ensures forall x :: x in Where(rows, keep) <==> x in rows && keep(x)
  {
    if rows != [] {
      WhereMembers(rows[1..], keep);
      assert rows == [rows[0]] + rows[1..];
    }
  }

  /** `r` is `s` with some elements left out and the rest in their original order. */
  predicate IsSubsequence<T(==,!new)>(r: seq<T>, s: seq<T>)
    decreases |s|
  {
    if r == [] then true
    else if s == [] then false
    else if r[0] == s[0] then IsSubsequence(r[1..], s[1..])
    else IsSubsequence(r, s[1..])
  }

  /** No row occurs twice. */
  predicate NoDuplicates<T(==,!new)>(s: seq<T>) {
    forall i, j :: 0 <= i < j < |s| ==> s[i] != s[j]
  }

  lemma {:induction false} SubsequenceDropHead<T(!new)>(r: seq<T>, s: seq<T>)
    requires r != [] && IsSubsequence(r, s)
    ensures IsSubsequence(r[1..], s)
    decreases |s|, 0
  {
    if r[0] != s[0] {
      SubsequenceDropHead(r, s[1..]);
      SubsequencePrepend(r[1..], s[0], s[1..]);
      assert [s[0]] + s[1..] == s;
    } else if r[1..] != [] {
      SubsequenceDropHead(r[1..], s[1..]);
      SubsequencePrepend(r[1..], s[0], s[1..]);
      assert [s[0]] + s[1..] == s;
    }
  }

  lemma {:induction false} SubsequencePrepend<T(!new)>(r: seq<T>, x: T, s: seq<T>)
    requires IsSubsequence(r, s)
    ensures IsSubsequence(r, [x] + s)
    decreases |s|, 1
  {
    assert ([x] + s)[1..] == s;
    if r != [] && r[0] == x {
      SubsequenceDropHead(r, s);
    }
  }

  lemma {:induction false} SubsequenceTransitive<T(!new)>(a: seq<T>, b: seq<T>, c: seq<T>)
    requires IsSubsequence(a, b) && IsSubsequence(b, c)
    ensures IsSubsequence(a, c)
    decreases |c|
  {
    if a != [] {
      if b[0] == c[0] {
        if a[0] == b[0] {
          SubsequenceTransitive(a[1..], b[1..], c[1..]);
        } else {
          SubsequenceTransitive(a, b[1..], c[1..]);
        }
      } else {
        SubsequenceTransitive(a, b, c[1..]);
        if a[0] == c[0] {
          SubsequenceDropHead(a, c[1..]);
        }
      }
    }
  }

  /** Filtering keeps the survivors in their original order. */
  lemma {:induction false} WhereIsSubsequence<T(!new)>(rows: seq<T>, keep: T -> bool)
    ensures IsSubsequence(Where(rows, keep), rows)
  {
    if rows != [] {
      WhereIsSubsequence(rows[1..], keep);
      if keep(rows[0]) {
        assert ([rows[0]] + Where(rows[1..], keep))[1..] == Where(rows[1..], keep);
      } else {
        SubsequencePrepend(Where(rows[1..], keep), rows[0], rows[1..]);
        assert [rows[0]] + rows[1..] == rows;
      }
    }
  }

  /** Filtering a table whose rows are distinct never produces a duplicate. */
  lemma {:induction false} WhereKeepsNoDuplicates<T(!new)>(rows: seq<T>, keep: T -> bool)
    requires NoDuplicates(rows)
    ensures NoDuplicates(Where(rows, keep))
  {
    if rows != [] {
      assert NoDuplicates(rows[1..]) by {
        forall i, j | 0 <= i < j < |rows[1..]| ensures rows[1..][i] != rows[1..][j] {
          assert rows[1..][i] == rows[i + 1] && rows[1..][j] == rows[j + 1];
        }
      }
      WhereKeepsNoDuplicates(rows[1..], keep);
      WhereMembers(rows[1..], keep);
      if keep(rows[0]) {
        assert rows[0] !in rows[1..];
        var tail := Where(rows[1..], keep);
        assert rows[0] !in tail;
        var r := [rows[0]] + tail;
        forall i, j | 0 <= i < j < |r| ensures r[i] != r[j] {
          if i == 0 {
            assert r[j] == tail[j - 1] && r[j] in tail;
          } else {
            assert r[i] == tail[i - 1] && r[j] == tail[j - 1];
          }
        }
      }
    }
  }

  /** Filtering distributes over concatenation of tables. */
  lemma {:induction false} WhereAppend<T(!new)>(a: seq<T>, b: seq<T>, keep: T -> bool)
    ensures Where(a + b, keep) == Where(a, keep) + Where(b, keep)
  {
    if a != [] {
      assert (a + b)[0] == a[0] && (a + b)[1..] == a[1..] + b;
      WhereAppend(a[1..], b, keep);
    } else {
      assert a + b == b;
    }
  }

  /** How many rows pass a filter does not depend on the order of the table. */
  lemma {:induction false} WhereCountPermutation<T(!new)>(a: seq<T>, b: seq<T>, keep: T -> bool)
    requires multiset(a) == multiset(b)
    ensures |Where(a, keep)| == |Where(b, keep)|
    decreases |a|
  {
    if a == [] {
      assert |multiset(b)| == 0;
    } else {
      var x := a[0];
      assert x in multiset(b);
      var k :| 0 <= k < |b| && b[k] == x;
      var rest := b[..k] + b[k + 1..];
      assert b == b[..k] + [x] + b[k + 1..];
      assert a == [x] + a[1..];
      assert multiset(b) == multiset(b[..k]) + multiset([x]) + multiset(b[k + 1..]);
      assert multiset(a) == multiset([x]) + multiset(a[1..]);
      assert multiset(rest) == multiset(b[..k]) + multiset(b[k + 1..]);
      assert multiset(a[1..]) == multiset(a) - multiset([x]);
      assert multiset(rest) == multiset(b) - multiset([x]);
      WhereCountPermutation(a[1..], rest, keep);
      WhereAppend(b[..k] + [x], b[k + 1..], keep);
      WhereAppend(b[..k], [x], keep);
      WhereAppend(b[..k], b[k + 1..], keep);
      WhereAppend([x], a[1..], keep);
    }
  }

  /** A filter that every row passes changes nothing. */
  lemma {:induction false} WhereOfAll<T(!new)>(rows: seq<T>, keep: T -> bool)
    requires forall i :: 0 <= i < |rows| ==> keep(rows[i])
    ensures Where(rows, keep) == rows
  {
    if rows != [] {
      WhereOfAll(rows[1..], keep);
    }
  }

  /** `queryset.distinct()`: one copy of each row, in table order. SQL does
      not say which of several equal rows is the one returned; here it is
      the last. */
  function Distinct<T(==,!new)>(rows: seq<T>): (r: seq<T>)
    ensures forall x :: x in r <==> x in rows
    ensures NoDuplicates(r)
  {
    if rows == [] then []
    else if rows[0] in rows[1..] then Distinct(rows[1..])
    else
      var tail := Distinct(rows[1..]);
      var r := [rows[0]] + tail;
      assert forall j :: 0 < j < |r| ==> r[j] == tail[j - 1] && r[j] in tail;
      r
  }

  lemma {:induction false} DistinctIsSubsequence<T(!new)>(rows: seq<T>)
    ensures IsSubsequence(Distinct(rows), rows)
  {
    if rows != [] {
      DistinctIsSubsequence(rows[1..]);
      if rows[0] in rows[1..] {
        SubsequencePrepend(Distinct(rows[1..]), rows[0], rows[1..]);
        assert [rows[0]] + rows[1..] == rows;
      } else {
        assert ([rows[0]] + Distinct(rows[1..]))[1..] == Distinct(rows[1..]);
      }
    }
  }

  /** On a table whose rows are already distinct, `.distinct()` changes nothing. */
  lemma {:induction false} DistinctOfNoDuplicates<T(!new)>(rows: seq<T>)
    requires NoDuplicates(rows)
    ensures Distinct(rows) == rows
  {
    if rows != [] {
      assert rows[0] !in rows[1..];
      assert NoDuplicates(rows[1..]) by {
        forall i, j | 0 <= i < j < |rows[1..]| ensures rows[1..][i] != rows[1..][j] {
          assert rows[1..][i] == rows[i + 1] && rows[1..][j] == rows[j + 1];
        }
      }
      DistinctOfNoDuplicates(rows[1..]);
    }
  }
}
