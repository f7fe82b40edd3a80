/**
  The Python string operations the dashboard relies on: `str.strip()`,
  `str.lower()`, the `<` order that `sorted` uses on strings, and
  `str.rstrip(c)` as used on formatted heights.
*/
module Text {

  /** Python's `str.isspace` for one character: the set `str.strip()` removes. */
  predicate IsSpace(c: char)
  {
    || ('\t' <= c <= '\r')
    || ('\U{1C}' <= c <= '\U{1F}')
    || c == ' '
    || c == '\U{85}'
    || c == '\U{A0}'
    || c == '\U{1680}'
    || ('\U{2000}' <= c <= '\U{200A}')
    || c == '\U{2028}'
    || c == '\U{2029}'
    || c == '\U{202F}'
    || c == '\U{205F}'
    || c == '\U{3000}'
  }

  /** Length of the run of whitespace that opens `s`. */
  function LeadingSpaces(s: string): (n: nat)
    ensures n <= |s|
    ensures forall k :: 0 <= k < n ==> IsSpace(s[k])
    ensures n == |s| || !IsSpace(s[n])
  {
    if s != [] && IsSpace(s[0]) then 1 + LeadingSpaces(s[1..]) else 0
  }

  /** Where the run of whitespace that closes `s` begins. */
  function TrailingStart(s: string): (m: nat)
    ensures m <= |s|
    ensures forall k :: m <= k < |s| ==> IsSpace(s[k])
    ensures m == 0 || !IsSpace(s[m - 1])
  {
    if s != [] && IsSpace(s[|s| - 1]) then TrailingStart(s[..|s| - 1]) else |s|
  }

  /**
    Python `s.strip()`: `s` without its leading and trailing whitespace.
    The result is a slice of `s`, everything cut off is whitespace, and the
    result neither starts nor ends with whitespace; it is empty exactly when
    `s` is all whitespace.
  */
  function Strip(s: string): (r: string)
    ensures exists i, j :: 0 <= i <= j <= |s| && r == s[i..j]
                           && (forall k :: 0 <= k < i ==> IsSpace(s[k]))
                           && (forall k :: j <= k < |s| ==> IsSpace(s[k]))
    ensures r == [] || (!IsSpace(r[0]) && !IsSpace(r[|r| - 1]))
    ensures r == [] <==> forall k :: 0 <= k < |s| ==> IsSpace(s[k])
  {
    var i := LeadingSpaces(s);
    var m := TrailingStart(s[i..]);
    assert s[i..][..m] == s[i..i + m];
    s[i..i + m]
  }

  /** The contract of `Strip` pins down one result: any slice that fits it is the stripped string. */
  lemma StripUnique(s: string, i: nat, j: nat)
    requires i <= j <= |s|
    requires forall k :: 0 <= k < i ==> IsSpace(s[k])
    requires forall k :: j <= k < |s| ==> IsSpace(s[k])
    requires i < j ==> !IsSpace(s[i]) && !IsSpace(s[j - 1])
    ensures Strip(s) == s[i..j]
  {
    var r := Strip(s);
    var i', j' :| 0 <= i' <= j' <= |s| && r == s[i'..j']
                  && (forall k :: 0 <= k < i' ==> IsSpace(s[k]))
                  && (forall k :: j' <= k < |s| ==> IsSpace(s[k]));
    if i < j {
      assert !IsSpace(s[i]) && !IsSpace(s[j - 1]);
      assert r != [];
      assert r[0] == s[i'] && r[|r| - 1] == s[j' - 1];
    }
  }

  /** Where `Strip` cuts `s`: the slice it returns and the whitespace on either side. */
  lemma StripBounds(s: string) returns (i: nat, j: nat)
    ensures i <= j <= |s| && Strip(s) == s[i..j]
    ensures forall k :: 0 <= k < i ==> IsSpace(s[k])
    ensures forall k :: j <= k < |s| ==> IsSpace(s[k])
    ensures i < j ==> !IsSpace(s[i]) && !IsSpace(s[j - 1])
  {
    i := LeadingSpaces(s);
    var m := TrailingStart(s[i..]);
    j := i + m;
    TrailingInSuffix(s, i, m);
    assert s[i..][..m] == s[i..j];
  }

  /** The trailing run of whitespace of `s[i..]`, read as positions of `s`. */
  lemma TrailingInSuffix(s: string, i: nat, m: nat)
    requires i <= |s| && m <= |s| - i
    requires forall k :: m <= k < |s| - i ==> IsSpace(s[i..][k])
    requires m == 0 || !IsSpace(s[i..][m - 1])
    ensures forall k :: i + m <= k < |s| ==> IsSpace(s[k])
    ensures m == 0 || !IsSpace(s[i + m - 1])
  {
    forall k | i + m <= k < |s| ensures IsSpace(s[k]) {
      assert s[k] == s[i..][k - i];
    }
    if m > 0 {
      assert s[i + m - 1] == s[i..][m - 1];
    }
  }

  /** Whitespace added around a string is removed by `Strip` together with the string's own. */
  lemma StripPadded(pre: string, s: string, post: string)
    requires forall k :: 0 <= k < |pre| ==> IsSpace(pre[k])
    requires forall k :: 0 <= k < |post| ==> IsSpace(post[k])
    ensures Strip(pre + s + post) == Strip(s)
  {
    var i, j := StripBounds(s);
    PaddedBounds(pre, s, post, i, j);
    StripUnique(pre + s + post, |pre| + i, |pre| + j);
  }

  /** The step of `StripPadded`: the cut points of `Strip(s)`, shifted by `|pre|`, fit `pre + s + post`. */
  lemma PaddedBounds(pre: string, s: string, post: string, i: nat, j: nat)
    requires forall k :: 0 <= k < |pre| ==> IsSpace(pre[k])
    requires forall k :: 0 <= k < |post| ==> IsSpace(post[k])
    requires i <= j <= |s|
    requires forall k :: 0 <= k < i ==> IsSpace(s[k])
    requires forall k :: j <= k < |s| ==> IsSpace(s[k])
    requires i < j ==> !IsSpace(s[i]) && !IsSpace(s[j - 1])
    ensures var t := pre + s + post;
            && (forall k :: 0 <= k < |pre| + i ==> IsSpace(t[k]))
            && (forall k :: |pre| + j <= k < |t| ==> IsSpace(t[k]))
            && (i < j ==> !IsSpace(t[|pre| + i]) && !IsSpace(t[|pre| + j - 1]))
            && t[|pre| + i..|pre| + j] == s[i..j]
  {
    var t := pre + s + post;
    assert forall k :: |pre| <= k < |pre| + |s| ==> t[k] == s[k - |pre|];
    assert forall k :: |pre| + |s| <= k < |t| ==> t[k] == post[k - |pre| - |s|];
  }

  /** Python `str.lower` on one character, for ASCII and Latin-1 capitals. */
  function LowerChar(c: char): char
  {
    if 'A' <= c <= 'Z' || ('\U{C0}' <= c <= '\U{DE}' && c != '\U{D7}') then
      (c as int + 32) as char
    else
      c
  }

  /** Lowering neither creates nor removes whitespace. */
  lemma LowerCharKeepsSpace(c: char)
    ensures IsSpace(LowerChar(c)) <==> IsSpace(c)
  {
  }

  /** Python `str.lower`: every character lowered, length kept. */
  function Lower(s: string): (r: string)
    ensures |r| == |s|
    ensures forall k :: 0 <= k < |s| ==> r[k] == LowerChar(s[k])
  {
    if s == [] then [] else [LowerChar(s[0])] + Lower(s[1..])
  }

  /**
    Python's `<` on `str`: lexicographic on code points, where a proper
    prefix comes first.
  */
  predicate Less(a: string, b: string)
    decreases |a|
  {
    if a == [] then b != []
    else if b == [] then false
    else if a[0] != b[0] then a[0] < b[0]
    else Less(a[1..], b[1..])
  }

  lemma {:induction false} LessIrreflexive(a: string)
    ensures !Less(a, a)
    decreases |a|
  {
    if a != [] {
      LessIrreflexive(a[1..]);
    }
  }

  lemma {:induction false} LessTotal(a: string, b: string)
    ensures a == b || Less(a, b) || Less(b, a)
    decreases |a|
  {
    if a != [] && b != [] && a[0] == b[0] {
      LessTotal(a[1..], b[1..]);
      assert a == [a[0]] + a[1..] && b == [b[0]] + b[1..];
    }
  }

  lemma {:induction false} LessTransitive(a: string, b: string, c: string)
    requires Less(a, b) && Less(b, c)
    ensures Less(a, c)
    decreases |a|
  {
    if a != [] && a[0] == b[0] && b[0] == c[0] {
      LessTransitive(a[1..], b[1..], c[1..]);
    }
  }

  /** Every string strictly before the next: sorted and free of duplicates. */
  predicate StrictlyAscending(r: seq<string>)
  {
    forall i, j :: 0 <= i < j < |r| ==> Less(r[i], r[j])
  }

  lemma AscendingIsDistinct(r: seq<string>)
    requires StrictlyAscending(r)
    ensures forall i, j :: 0 <= i < j < |r| ==> r[i] != r[j]
  {
    forall i, j | 0 <= i < j < |r| ensures r[i] != r[j] {
      LessIrreflexive(r[i]);
    }
  }

  /** Adds `c` to a strictly ascending list unless it is already there. */
  function InsertDistinct(c: string, r: seq<string>): (t: seq<string>)
    requires StrictlyAscending(r)
    ensures StrictlyAscending(t)
    ensures forall x :: x in t <==> x in r || x == c
  {
    if r == [] then [c]
    else if c == r[0] then r
    else if Less(c, r[0]) then
      assert forall x :: x in r ==> x == r[0] || x in r[1..];
      assert forall j :: 0 < j < |r| ==> Less(r[0], r[j]);
      assert forall j :: 0 < j < |r| ==> Less(c, r[j]) by {
        forall j | 0 < j < |r| ensures Less(c, r[j]) { LessTransitive(c, r[0], r[j]); }
      }
      [c] + r
    else
      LessTotal(c, r[0]);
      assert forall x :: x in r ==> x == r[0] || x in r[1..];
      var rest := InsertDistinct(c, r[1..]);
      assert forall x :: x in rest ==> Less(r[0], x) by {
        forall x | x in rest ensures Less(r[0], x) {
          if x != c {
            var j :| 0 <= j < |r[1..]| && r[1..][j] == x;
            assert r[j + 1] == x;
          }
        }
      }
      [r[0]] + rest
  }

  /**
    `sorted(set(cs))`: each distinct string of `cs` exactly once, in
    ascending order.
  */
  function SortedDistinct(cs: seq<string>): (r: seq<string>)
    ensures StrictlyAscending(r)
    ensures forall x :: x in r <==> x in cs
    ensures forall i, j :: 0 <= i < j < |r| ==> r[i] != r[j]
  {
    if cs == [] then []
    else
      var rest := SortedDistinct(cs[1..]);
      assert forall x :: x in cs ==> x == cs[0] || x in cs[1..];
      var r := InsertDistinct(cs[0], rest);
      AscendingIsDistinct(r);
      r
  }

  /** `u` is what `s.rstrip(c)` returns: `s` less its run of trailing `c`. */
  predicate RStripped(s: string, u: string, c: char)
  {
    && u <= s
    && (forall k :: |u| <= k < |s| ==> s[k] == c)
    && (u == [] || u[|u| - 1] != c)
  }

  /** Python `s.rstrip(c)` for a single character `c`. */
  function RStrip(s: string, c: char): (u: string)
    ensures RStripped(s, u, c)
  {
    if s != [] && s[|s| - 1] == c then RStrip(s[..|s| - 1], c) else s
  }

  /** Only one string is `s.rstrip(c)`. */
  lemma RStrippedUnique(s: string, u: string, v: string, c: char)
    requires RStripped(s, u, c) && RStripped(s, v, c)
    ensures u == v
  {
  }

  /**
    The dashboard's clean-up of a height printed with two decimals:
    `.rstrip('0').rstrip('.')`, so that "300.00" shows as "300" and
    "300.50" as "300.5".
  */
  function TrimDecimals(s: string): (r: string)
    ensures exists u :: RStripped(s, u, '0') && RStripped(u, r, '.')
  {
    RStrip(RStrip(s, '0'), '.')
  }

  lemma TrimDecimalsExamples()
    ensures TrimDecimals("300.00") == "300"
    ensures TrimDecimals("300.50") == "300.5"
    ensures TrimDecimals("300.25") == "300.25"
  {
    assert RStripped("300.00", "300.", '0');
    RStrippedUnique("300.00", RStrip("300.00", '0'), "300.", '0');
    assert RStripped("300.", "300", '.');
    RStrippedUnique("300.", RStrip("300.", '.'), "300", '.');
    assert RStripped("300.50", "300.5", '0');
    RStrippedUnique("300.50", RStrip("300.50", '0'), "300.5", '0');
    assert RStripped("300.5", "300.5", '.');
    RStrippedUnique("300.5", RStrip("300.5", '.'), "300.5", '.');
    assert RStripped("300.25", "300.25", '0');
    RStrippedUnique("300.25", RStrip("300.25", '0'), "300.25", '0');
    assert RStripped("300.25", "300.25", '.');
    RStrippedUnique("300.25", RStrip("300.25", '.'), "300.25", '.');
  }

}
