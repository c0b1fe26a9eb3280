/** Choosing the recorded request that shares the longest substring with an incoming one. */
module ClosestMatch {

  /** `a[i..i + n]` and `b[j..j + n]` are the same text. */
  predicate Common(a: string, b: string, i: nat, j: nat, n: nat) {
    i + n <= |a| && j + n <= |b| && a[i..i + n] == b[j..j + n]
  }

  /** The length of the longest common text that ends just before i and j. */
  function Suffix(a: string, b: string, i: nat, j: nat): (n: nat)
    requires i <= |a| && j <= |b|
    ensures n <= i && n <= j
  {
    if i == 0 || j == 0 || a[i - 1] != b[j - 1] then 0 else 1 + Suffix(a, b, i - 1, j - 1)
  }

  /** A common text of n + 1 bytes is a common text of n bytes and the same byte after it. */
  lemma CommonLonger(a: string, b: string, i: nat, j: nat, n: nat)
    ensures Common(a, b, i, j, n + 1)
            <==> Common(a, b, i, j, n) && i + n < |a| && j + n < |b| && a[i + n] == b[j + n]
  {
    if i + n < |a| && j + n < |b| {
      var s, t := a[i..i + n], b[j..j + n];
      assert a[i..i + (n + 1)] == s + [a[i + n]];
      assert b[j..j + (n + 1)] == t + [b[j + n]];
      SnocEqual(s, t, a[i + n], b[j + n]);
    }
  }

  lemma SnocEqual(s: string, t: string, x: char, y: char)
    requires |s| == |t|
    ensures s + [x] == t + [y] <==> s == t && x == y
  {
    assert (s + [x])[..|s|] == s && (t + [y])[..|t|] == t;
    assert (s + [x])[|s|] == x && (t + [y])[|t|] == y;
  }

  lemma {:induction false} SuffixIsCommon(a: string, b: string, i: nat, j: nat)
    requires i <= |a| && j <= |b|
    ensures var n := Suffix(a, b, i, j); Common(a, b, i - n, j - n, n)
    decreases i
  {
    if i > 0 && j > 0 && a[i - 1] == b[j - 1] {
      hide Common;
      SuffixIsCommon(a, b, i - 1, j - 1);
      var n := Suffix(a, b, i - 1, j - 1);
      CommonLonger(a, b, i - 1 - n, j - 1 - n, n);
    }
  }

  lemma {:induction false} SuffixIsLongest(a: string, b: string, i: nat, j: nat, m: nat)
    requires Common(a, b, i, j, m)
    ensures m <= Suffix(a, b, i + m, j + m)
    decreases m
  {
    if m > 0 {
      CommonLonger(a, b, i, j, m - 1);
      SuffixIsLongest(a, b, i, j, m - 1);
    }
  }

  /** `n` is the maximum length of a text that occurs in both strings. */
  ghost predicate IsLongest(a: string, b: string, n: nat) {
    (exists i: nat, j: nat :: Common(a, b, i, j, n))
    && forall i: nat, j: nat, m: nat :: Common(a, b, i, j, m) ==> m <= n
  }

  lemma LongestUnique(a: string, b: string, m: nat, n: nat)
    requires IsLongest(a, b, m) && IsLongest(a, b, n)
    ensures m == n
  {
  }

  /** All common texts that end in the first `rows` bytes of a, or at the next byte of a and within
      the first `columns` bytes of b, have length at most n. */
  ghost predicate Bounded(a: string, b: string, rows: nat, columns: nat, n: nat)
    requires rows <= |a| && columns <= |b|
  {
    && (forall i: nat, j: nat :: i <= rows && j <= |b| ==> Suffix(a, b, i, j) <= n)
    && (rows < |a| ==> RowBounded(a, b, rows + 1, columns, n))
  }

  ghost predicate RowBounded(a: string, b: string, i: nat, columns: nat, n: nat)
    requires i <= |a| && columns <= |b|
  {
    forall j: nat :: j <= columns ==> Suffix(a, b, i, j) <= n
  }

  lemma NoRows(a: string, b: string)
    ensures Bounded(a, b, 0, 0, 0)
  {
  }

  /** The next entry of the table, when the bound takes it into account. */
  lemma NextColumn(a: string, b: string, rows: nat, columns: nat, n: nat, m: nat)
    requires rows < |a| && columns < |b| && Bounded(a, b, rows, columns, n)
    requires n <= m && Suffix(a, b, rows + 1, columns + 1) <= m
    ensures Bounded(a, b, rows, columns + 1, m)
  {
    hide Suffix;
  }

  lemma NextRow(a: string, b: string, rows: nat, n: nat)
    requires rows < |a| && Bounded(a, b, rows, |b|, n)
    ensures Bounded(a, b, rows + 1, 0, n)
  {
  }

  /** A bound on all common suffixes bounds all common texts. */
  lemma BoundedIsLongest(a: string, b: string, n: nat, i: nat, j: nat)
    requires Bounded(a, b, |a|, 0, n) && i <= |a| && j <= |b| && Suffix(a, b, i, j) == n
    ensures IsLongest(a, b, n)
  {
    SuffixIsCommon(a, b, i, j);
    forall k: nat, l: nat, m: nat | Common(a, b, k, l, m) ensures m <= n {
      SuffixIsLongest(a, b, k, l, m);
    }
  }

  /** The two-row dynamic program. */
  method LongestSubstr(str1: string, str2: string) returns (maxSubstr: nat)
    ensures IsLongest(str1, str2, maxSubstr)
  {
    if str1 == "" || str2 == "" {
      assert Common(str1, str2, 0, 0, 0);
      return 0;
    }

    var curr := seq(|str2|, _ => 0);
    var prev := seq(|str2|, _ => 0);
    maxSubstr := 0;
    ghost var endI, endJ := 0, 0;
    NoRows(str1, str2);
    hide Bounded, IsLongest;
    for i := 0 to |str1|
      invariant |curr| == |prev| == |str2|
      invariant i > 0 ==> forall j :: 0 <= j < |str2| ==> prev[j] == Suffix(str1, str2, i, j + 1)
      invariant endI <= |str1| && endJ <= |str2| && Suffix(str1, str2, endI, endJ) == maxSubstr
      invariant Bounded(str1, str2, i, 0, maxSubstr)
    {
      for j := 0 to |str2|
        invariant |curr| == |str2|
        invariant forall l :: 0 <= l < j ==> curr[l] == Suffix(str1, str2, i + 1, l + 1)
        invariant endI <= |str1| && endJ <= |str2| && Suffix(str1, str2, endI, endJ) == maxSubstr
        invariant Bounded(str1, str2, i, j, maxSubstr)
      {
        ghost var before := maxSubstr;
        if str1[i] != str2[j] {
          curr := curr[j := 0];
        } else {
          if i == 0 || j == 0 {
            curr := curr[j := 1];
          } else {
            curr := curr[j := 1 + prev[j - 1]];
          }
          if maxSubstr < curr[j] {
            maxSubstr, endI, endJ := curr[j], i + 1, j + 1;
          }
        }
        NextColumn(str1, str2, i, j, before, maxSubstr);
      }
      NextRow(str1, str2, i, maxSubstr);
      var swap := curr;
      curr := prev;
      prev := swap;
    }
    BoundedIsLongest(str1, str2, maxSubstr, endI, endJ);
  }

  /** The first position of a largest element, as `max_element` finds it; 0 for an empty list. */
  method MaxElement(values: seq<nat>) returns (result: nat)
    ensures values == [] ==> result == 0
    ensures values != [] ==> result < |values|
    ensures forall k :: 0 <= k < |values| ==> values[k] <= values[result]
    ensures forall k :: 0 <= k < result ==> values[k] < values[result]
  {
    result := 0;
    if values == [] { return; }
    for k := 1 to |values|
      invariant values != [] ==> result < |values|
      invariant forall l :: 0 <= l < k && l < |values| ==> values[l] <= values[result]
      invariant forall l :: 0 <= l < result ==> values[l] < values[result]
    {
      if values[result] < values[k] { result := k; }
    }
  }

  /** `n` is the longest common length of `req` with entry k. */
  ghost predicate Scores(req: string, possible: seq<string>, k: nat, n: nat)
    requires k < |possible|
  {
    IsLongest(req, possible[k], n)
  }

  /** The index chosen is the first that shares the longest substring with the request. */
  method Closest(req: string, possible: seq<string>) returns (result: nat)
    ensures possible == [] ==> result == 0
    ensures possible != [] ==> result < |possible|
    ensures possible != [] ==> forall k: nat, m: nat, n: nat ::
      (k < |possible| && Scores(req, possible, k, m) && Scores(req, possible, result, n)
       ==> m <= n && (k < result ==> m < n))
  {
    var longest: seq<nat> := [];
    for i := 0 to |possible|
      invariant |longest| == i
      invariant forall k :: 0 <= k < i ==> Scores(req, possible, k, longest[k])
    {
      var n := LongestSubstr(req, possible[i]);
      longest := longest + [n];
    }
    result := MaxElement(longest);
    forall k: nat, m: nat, n: nat | k < |possible| && possible != []
      && Scores(req, possible, k, m) && Scores(req, possible, result, n)
      ensures m <= n && (k < result ==> m < n)
    {
      LongestUnique(req, possible[k], m, longest[k]);
      LongestUnique(req, possible[result], n, longest[result]);
    }
  }
}
