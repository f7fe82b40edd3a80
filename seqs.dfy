/**
  Whole-table operations of the dashboard, stated once for any row type:
  a boolean-mask filter, a column-wise map, `head(n)`, and what it means
  for a table to keep another's order or to be sorted by a numeric column.
*/
module Seqs {

  /** `a` can be obtained from `b` by deleting rows: order is kept. */
  ghost predicate IsSubsequence<T>(a: seq<T>, b: seq<T>)
    decreases |b|
  {
    a == [] || (b != [] && ((a[0] == b[0] && IsSubsequence(a[1..], b[1..])) || IsSubsequence(a, b[1..])))
  }

  /** Rows of `s` are in descending order of `key` (ties allowed). */
  predicate Descending<T>(s: seq<T>, key: T -> real)
  {
    forall i, j :: 0 <= i < j < |s| ==> key(s[i]) >= key(s[j])
  }

  /**
    A boolean-mask selection `s[p(s)]`: the rows that satisfy `p`, all of
    them, each as often as in `s`, and in the order of `s`.
  */
  function Filter<T(!new)>(p: T -> bool, s: seq<T>): (r: seq<T>)
    ensures |r| <= |s|
    ensures forall x :: x in r <==> x in s && p(x)
    ensures forall x :: multiset(r)[x] == if p(x) then multiset(s)[x] else 0
    ensures IsSubsequence(r, s)
  {
    if s == [] then []
    else
      assert s == [s[0]] + s[1..];
      var rest := Filter(p, s[1..]);
      if p(s[0]) then
        assert ([s[0]] + rest)[1..] == rest;
        [s[0]] + rest
      else
        rest
  }

  /**
    A vectorised column assignment such as `astype(str)` or `replace`:
    `f` applied to every row, order and length kept.
  */
  function Map<T, U>(f: T -> U, s: seq<T>): (r: seq<U>)
    ensures |r| == |s|
    ensures forall i :: 0 <= i < |s| ==> r[i] == f(s[i])
  {
    seq(|s|, i requires 0 <= i < |s| => f(s[i]))
  }

  /**
    pandas `head(n)`: the first `n` rows, or every row when there are fewer;
    a negative `n` drops the last `-n` rows.
  */
  function Head<T>(s: seq<T>, n: int): (r: seq<T>)
    ensures r <= s
    ensures n >= 0 ==> |r| == if n < |s| then n else |s|
    ensures n < 0 ==> |r| == if |s| + n > 0 then |s| + n else 0
  {
    if n >= 0 then
      if n < |s| then s[..n] else s
    else
      if |s| + n > 0 then s[..|s| + n] else []
  }

  lemma {:induction false} SubsequenceReflexive<T>(s: seq<T>)
    ensures IsSubsequence(s, s)
    decreases |s|
  {
    if s != [] {
      SubsequenceReflexive(s[1..]);
    }
  }

  /** A prefix keeps the order of the table it is taken from. */
  lemma {:induction false} PrefixIsSubsequence<T>(a: seq<T>, b: seq<T>)
    requires a <= b
    ensures IsSubsequence(a, b)
    decreases |b|
  {
    if a != [] {
      assert a[0] == b[0];
      assert a[1..] <= b[1..];
      PrefixIsSubsequence(a[1..], b[1..]);
    }
  }

  /** Deleting rows twice is deleting rows once: order kept through both steps. */
  lemma {:induction false} SubsequenceTransitive<T>(a: seq<T>, b: seq<T>, c: seq<T>)
    requires IsSubsequence(a, b) && IsSubsequence(b, c)
    ensures IsSubsequence(a, c)
    decreases |c|
  {
    if a != [] {
      if b[0] == c[0] && IsSubsequence(b[1..], c[1..]) {
        if a[0] == b[0] && IsSubsequence(a[1..], b[1..]) {
          SubsequenceTransitive(a[1..], b[1..], c[1..]);
        } else {
          SubsequenceTransitive(a, b[1..], c[1..]);
        }
      } else {
        SubsequenceTransitive(a, b, c[1..]);
      }
    }
  }

  /** The first rows of a selection keep the order of the table selected from, as `head` after a mask does. */
  lemma PrefixOfSubsequence<T>(top: seq<T>, pool: seq<T>, s: seq<T>)
    requires top <= pool && IsSubsequence(pool, s)
    ensures IsSubsequence(top, s)
  {
    PrefixIsSubsequence(top, pool);
    SubsequenceTransitive(top, pool, s);
  }

  /** Every row of a subsequence is a row of the whole table. */
  lemma {:induction false} SubsequenceMembers<T>(a: seq<T>, b: seq<T>)
    requires IsSubsequence(a, b)
    ensures forall x :: x in a ==> x in b
    decreases |b|
  {
    if a != [] {
      if a[0] == b[0] && IsSubsequence(a[1..], b[1..]) {
        SubsequenceMembers(a[1..], b[1..]);
        assert forall x :: x in a ==> x == a[0] || x in a[1..];
        assert forall x :: x in b[1..] ==> x in b;
      } else {
        SubsequenceMembers(a, b[1..]);
        assert forall x :: x in b[1..] ==> x in b;
      }
    }
  }

  /** Deleting rows from a sorted table leaves it sorted. */
  lemma {:induction false} SubsequenceDescending<T>(a: seq<T>, b: seq<T>, key: T -> real)
    requires IsSubsequence(a, b) && Descending(b, key)
    ensures Descending(a, key)
    decreases |b|
  {
    if a != [] {
      assert Descending(b[1..], key) by {
        forall i, j | 0 <= i < j < |b[1..]| ensures key(b[1..][i]) >= key(b[1..][j]) {
          assert b[1..][i] == b[i + 1] && b[1..][j] == b[j + 1];
        }
      }
      if a[0] == b[0] && IsSubsequence(a[1..], b[1..]) {
        SubsequenceDescending(a[1..], b[1..], key);
        SubsequenceMembers(a[1..], b[1..]);
        forall j | 0 < j < |a| ensures key(a[0]) >= key(a[j]) {
          assert a[j] == a[1..][j - 1];
          assert a[j] in b[1..];
          var m :| 0 <= m < |b[1..]| && b[1..][m] == a[j];
          assert b[m + 1] == a[j];
        }
      } else {
        SubsequenceDescending(a, b[1..], key);
      }
    }
  }

  /** The first row of a non-empty selection is the first row of `s` that satisfies `p`. */
  lemma {:induction false} FilterHeadIsFirstMatch<T(!new)>(p: T -> bool, s: seq<T>)
    requires Filter(p, s) != []
    ensures exists i :: 0 <= i < |s| && s[i] == Filter(p, s)[0] && p(s[i]) && forall j :: 0 <= j < i ==> !p(s[j])
    decreases |s|
  {
    if p(s[0]) {
      assert Filter(p, s)[0] == s[0];
    } else {
      assert Filter(p, s) == Filter(p, s[1..]);
      FilterHeadIsFirstMatch(p, s[1..]);
      var i :| 0 <= i < |s[1..]| && s[1..][i] == Filter(p, s[1..])[0] && p(s[1..][i])
                && forall j :: 0 <= j < i ==> !p(s[1..][j]);
      assert s[i + 1] == s[1..][i];
      forall j | 0 <= j < i + 1 ensures !p(s[j]) {
        if j > 0 {
          assert s[j] == s[1..][j - 1];
        }
      }
    }
  }

  /** Removing a row the mask rejects does not change the selection. */
  lemma {:induction false} FilterSkip<T(!new)>(p: T -> bool, s: seq<T>, i: nat)
    requires i < |s| && !p(s[i])
    ensures Filter(p, s[..i] + s[i + 1..]) == Filter(p, s)
    decreases i
  {
    var s' := s[..i] + s[i + 1..];
    if i == 0 {
      assert s' == s[1..];
    } else {
      var t := s[1..][..i - 1] + s[1..][i..];
      assert s'[0] == s[0] && s'[1..] == t;
      FilterSkip(p, s[1..], i - 1);
      assert Filter(p, s') == if p(s[0]) then [s[0]] + Filter(p, t) else Filter(p, t);
      assert Filter(p, s) == if p(s[0]) then [s[0]] + Filter(p, s[1..]) else Filter(p, s[1..]);
    }
  }

  /** A value is in the mapped table exactly when it is the image of some row. */
  lemma MapMembers<T, U>(f: T -> U, s: seq<T>, y: U)
    ensures y in Map(f, s) <==> exists x :: x in s && f(x) == y
  {
    if y in Map(f, s) {
      var i :| 0 <= i < |s| && Map(f, s)[i] == y;
      assert s[i] in s;
    }
    if exists x :: x in s && f(x) == y {
      var x :| x in s && f(x) == y;
      var i :| 0 <= i < |s| && s[i] == x;
      assert Map(f, s)[i] == y;
    }
  }

  /** Removing one row from a sorted table leaves it sorted. */
  lemma DescendingWithout<T>(b: seq<T>, j: nat, key: T -> real)
    requires j < |b| && Descending(b, key)
    ensures Descending(b[..j] + b[j + 1..], key)
  {
    var b' := b[..j] + b[j + 1..];
    forall x, y | 0 <= x < y < |b'| ensures key(b'[x]) >= key(b'[y]) {
      var x', y' := if x < j then x else x + 1, if y < j then y else y + 1;
      assert b'[x] == b[x'] && b'[y] == b[y'];
    }
  }

  /** Dropping the same row from two tables with the same rows leaves tables with the same rows. */
  lemma RemoveMatching<T>(a: seq<T>, b: seq<T>, j: nat)
    requires multiset(a) == multiset(b) && a != [] && j < |b| && b[j] == a[0]
    ensures multiset(a[1..]) == multiset(b[..j] + b[j + 1..])
  {
    assert b == b[..j] + [b[j]] + b[j + 1..];
    assert multiset(b) == multiset(b[..j] + b[j + 1..]) + multiset{b[j]};
    assert a == [a[0]] + a[1..];
    assert multiset(a[1..]) == multiset(a) - multiset{a[0]};
  }

  /**
    Two tables holding the same rows, both sorted by `key`, agree on the
    `key` column position by position, whatever order their ties are in.
  */
  lemma {:induction false} DescendingKeysDetermined<T>(a: seq<T>, b: seq<T>, key: T -> real)
    requires Descending(a, key) && Descending(b, key) && multiset(a) == multiset(b)
    ensures Map(key, a) == Map(key, b)
    decreases |a|
  {
    assert |a| == |multiset(a)| == |multiset(b)| == |b|;
    if a != [] {
      var j := FrontMatch(a, b, key);
      ShrinkBoth(a, b, j, key);
      DescendingKeysDetermined(a[1..], b[..j] + b[j + 1..], key);
      RemovedTieKeys(a, b, j, key);
    }
  }

  /** The first row of `a` stands somewhere in `b`, and both tables open with the same key. */
  lemma FrontMatch<T>(a: seq<T>, b: seq<T>, key: T -> real) returns (j: nat)
    requires Descending(a, key) && Descending(b, key) && multiset(a) == multiset(b) && a != []
    ensures |a| == |b| && j < |b| && b[j] == a[0] && key(b[0]) == key(a[0])
  {
    assert |a| == |multiset(a)| == |multiset(b)| == |b|;
    assert a[0] in multiset(b);
    j :| 0 <= j < |b| && b[j] == a[0];
    assert b[0] in multiset(a);
    var i :| 0 <= i < |a| && a[i] == b[0];
  }

  /** Taking the matched row out of both tables keeps them sorted and equal as multisets. */
  lemma ShrinkBoth<T>(a: seq<T>, b: seq<T>, j: nat, key: T -> real)
    requires Descending(a, key) && Descending(b, key) && multiset(a) == multiset(b)
    requires a != [] && j < |b| && b[j] == a[0]
    ensures Descending(a[1..], key) && Descending(b[..j] + b[j + 1..], key)
    ensures multiset(a[1..]) == multiset(b[..j] + b[j + 1..])
  {
    RemoveMatching(a, b, j);
    DescendingWithout(a, 0, key);
    assert a[..0] + a[1..] == a[1..];
    DescendingWithout(b, j, key);
  }

  /** The step of `DescendingKeysDetermined`: removing matching rows of equal key at the front. */
  lemma RemovedTieKeys<T>(a: seq<T>, b: seq<T>, j: nat, key: T -> real)
    requires |a| == |b| && j < |b| && a != [] && Descending(b, key)
    requires key(b[0]) == key(a[0]) == key(b[j])
    requires Map(key, a[1..]) == Map(key, b[..j] + b[j + 1..])
    ensures Map(key, a) == Map(key, b)
  {
    var b' := b[..j] + b[j + 1..];
    forall k | 0 <= k < |a| ensures Map(key, a)[k] == Map(key, b)[k] {
      if 0 < k <= j {
        assert Map(key, a[1..])[k - 1] == key(a[k]);
        assert Map(key, b')[k - 1] == key(b[k - 1]);
      } else if k > j {
        assert Map(key, a[1..])[k - 1] == key(a[k]);
        assert Map(key, b')[k - 1] == key(b[k]);
      }
    }
  }

}
