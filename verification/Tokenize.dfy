/** `split` with a one-character separator, as every caller uses it. */
module Tokenize {
  import opened Text

  function Tokens(s: string, sep: char): (ts: seq<string>)
    ensures |ts| >= 1
    decreases |s|
  {
    var k := Find(s, [sep]);
    if k == -1 then [s] else [s[..k]] + Tokens(s[k + 1..], sep)
  }

  function Join(ts: seq<string>, sep: char): string
    requires |ts| >= 1
  {
    if |ts| == 1 then ts[0] else ts[0] + [sep] + Join(ts[1..], sep)
  }

  /** `Tokens` is the only list of separator-free pieces that joins back to `s`. */
  lemma {:induction false} TokensUnique(ts: seq<string>, sep: char)
    requires |ts| >= 1 && forall t :: t in ts ==> sep !in t
    ensures Tokens(Join(ts, sep), sep) == ts
  {
    var s := Join(ts, sep);
    FreeByte(ts[0], sep);
    if |ts| > 1 {
      assert s == ts[0] + ([sep] + Join(ts[1..], sep));
      assert At(s, [sep], |ts[0]|);
      FindExtend(ts[0], [sep] + Join(ts[1..], sep), [sep]);
      assert s[|ts[0]| + 1..] == Join(ts[1..], sep);
      TokensUnique(ts[1..], sep);
    }
  }

  lemma {:induction false} JoinSnoc(ts: seq<string>, t: string, sep: char)
    requires |ts| >= 1
    ensures Join(ts + [t], sep) == Join(ts, sep) + [sep] + t
  {
    if |ts| == 1 {
      assert (ts + [t])[1..] == [t];
    } else {
      assert (ts + [t])[1..] == ts[1..] + [t];
      JoinSnoc(ts[1..], t, sep);
    }
  }

  /** `last` is what follows the last separator, or the whole string. */
  predicate IsLast(s: string, sep: char, before: string, last: string) {
    s == before + last && sep !in last && (before == "" || before[|before| - 1] == sep)
  }

  /** `first` is what precedes the first separator, or the whole string. */
  predicate IsFirst(s: string, sep: char, first: string, after: string) {
    s == first + after && sep !in first && (after == "" || after[0] == sep)
  }

  lemma {:induction false} LastToken(s: string, sep: char, before: string, last: string)
    requires IsLast(s, sep, before, last)
    ensures var ts := Tokens(s, sep); ts[|ts| - 1] == last
    decreases |s|
  {
    hide Find;
    CutFound(s, sep);
    var k := Find(s, [sep]);
    if before == "" {
      assert s == last;
    } else {
      assert s[|before| - 1] == sep;
      assert k != -1 && k < |before|;
      assert s[k + 1..] == before[k + 1..] + last;
      LastToken(s[k + 1..], sep, before[k + 1..], last);
    }
  }

  lemma {:induction false} LastSplits(s: string, sep: char) returns (before: string, last: string)
    ensures IsLast(s, sep, before, last)
    decreases |s|
  {
    if s == "" || s[|s| - 1] == sep {
      before, last := s, "";
    } else {
      var n := |s| - 1;
      before, last := LastSplits(s[..n], sep);
      assert s == before + (last + [s[n]]);
      last := last + [s[n]];
    }
  }

  lemma FirstToken(s: string, sep: char, first: string, after: string)
    requires IsFirst(s, sep, first, after)
    ensures Tokens(s, sep)[0] == first
    ensures after == "" ==> Tokens(s, sep) == [first]
    ensures after != "" ==> Tokens(s, sep) == [first] + Tokens(after[1..], sep)
  {
    hide Find;
    CutAt(first, after, sep);
    if after == "" {
      assert s == first;
    } else {
      assert s[..|first|] == first && s[|first| + 1..] == after[1..];
    }
  }

  lemma FirstSplits(s: string, sep: char) returns (first: string, after: string)
    ensures IsFirst(s, sep, first, after)
  {
    hide Find;
    CutFound(s, sep);
    var k := Find(s, [sep]);
    if k == -1 {
      first, after := s, "";
    } else {
      first, after := s[..k], s[k..];
    }
  }

  lemma NextOccurrence(s: string, sep: char, from: nat)
    requires from <= |s|
    ensures var r := FindFrom(s, [sep], from);
      (r != -1 ==> from <= r < |s| && s[r] == sep)
      && forall k :: from <= k < (if r == -1 then |s| else r) ==> s[k] != sep
  {
    forall k | from <= k < |s| ensures At(s, [sep], k) <==> s[k] == sep {
      assert s[k..k + 1] == [s[k]];
    }
  }

  /** `indices` are the offsets of the separator, in order. */
  ghost predicate AllSeparators(str: string, sep: char, indices: seq<nat>) {
    && (forall i :: 0 <= i < |indices| ==> indices[i] < |str| && str[indices[i]] == sep)
    && (forall i, j :: 0 <= i < j < |indices| ==> indices[i] < indices[j])
    && (forall k: nat :: k < |str| && str[k] == sep ==> k in indices)
  }

  lemma Gap(str: string, sep: char, indices: seq<nat>, from: nat, to: nat)
    requires from <= to <= |str| && AllSeparators(str, sep, indices)
    requires forall j :: 0 <= j < |indices| ==> indices[j] < from || to <= indices[j]
    ensures sep !in str[from..to]
  {
    assert forall k :: 0 <= k < to - from ==> str[from..to][k] == str[from + k];
  }

  /** Where the next separator at or after `from` is, or the end of the string. */
  function NextStop(str: string, sep: char, from: nat): nat
    requires from <= |str|
  {
    NextOccurrence(str, sep, from);
    var r := FindFrom(str, [sep], from);
    if r == -1 then |str| else r
  }

  lemma NoneBefore(str: string, sep: char)
    ensures AllSeparators(str[..NextStop(str, sep, 0)], sep, [])
  {
    hide FindFrom;
    NextOccurrence(str, sep, 0);
  }

  lemma OneMoreSeparator(str: string, sep: char, indices: seq<nat>, next: nat)
    requires next < |str| && str[next] == sep && AllSeparators(str[..next], sep, indices)
    ensures AllSeparators(str[..NextStop(str, sep, next + 1)], sep, indices + [next])
  {
    hide FindFrom;
    NextOccurrence(str, sep, next + 1);
    var stop, all := NextStop(str, sep, next + 1), indices + [next];
    forall k: nat | k < stop && str[k] == sep ensures k in all {
      if k < next {
        assert str[..next][k] == sep;
        assert k in indices;
      } else {
        assert k == next == all[|indices|];
      }
    }
    forall i | 0 <= i < |indices| ensures all[i] < next && str[all[i]] == sep {
      assert str[..next][indices[i]] == str[all[i]];
    }
  }

  method Separators(str: string, separator: char) returns (indices: seq<nat>)
    ensures AllSeparators(str, separator, indices)
  {
    hide AllSeparators;
    indices := [];
    var nextToken := FindFrom(str, [separator], 0);
    NextOccurrence(str, separator, 0);
    NoneBefore(str, separator);
    while nextToken != -1
      invariant nextToken == -1 || (0 <= nextToken < |str| && str[nextToken] == separator)
      invariant AllSeparators(str[..if nextToken == -1 then |str| else nextToken], separator, indices)
      decreases if nextToken == -1 then 0 else |str| - nextToken
    {
      OneMoreSeparator(str, separator, indices, nextToken);
      indices := indices + [nextToken];
      var from := nextToken + 1;
      nextToken := FindFrom(str, [separator], from);
      NextOccurrence(str, separator, from);
    }
    assert str[..|str|] == str;
  }

  /** The two passes of `split`: collect the separator offsets, then cut between them. */
  method Split(str: string, separator: char) returns (ret: seq<string>)
    ensures ret == Tokens(str, separator)
    ensures Join(ret, separator) == str
    ensures forall t :: t in ret ==> separator !in t
  {
    var indices := Separators(str, separator);
    if indices == [] {
      ret := [str];
      FreeByte(str, separator);
      return;
    }

    ret := [str[..indices[0]]];
    Gap(str, separator, indices, 0, indices[0]);
    var i := 0;
    while i < |indices| - 1
      invariant 0 <= i <= |indices| - 1
      invariant |ret| >= 1 && Join(ret, separator) == str[..indices[i]]
      invariant forall t :: t in ret ==> separator !in t
    {
      var token := str[indices[i] + 1..indices[i + 1]];
      Gap(str, separator, indices, indices[i] + 1, indices[i + 1]);
      JoinSnoc(ret, token, separator);
      ret := ret + [token];
      assert str[..indices[i + 1]] == str[..indices[i]] + [separator] + token;
      i := i + 1;
    }
    var last := str[indices[i] + 1..];
    Gap(str, separator, indices, indices[i] + 1, |str|);
    JoinSnoc(ret, last, separator);
    ret := ret + [last];
    assert str == str[..indices[i]] + [separator] + last;
    TokensUnique(ret, separator);
  }
}
