/** Header lines: splitting a line at its first colon, printing it back, and the
    case-insensitive lookup of a header by name. */
module HttpHeader {
  import opened Text

  datatype Header = Header(key: string, value: string)

  function Strip(s: string): string {
    if s != "" && s[0] == ' ' then Strip(s[1..]) else s
  }

  predicate Blank(s: string) {
    forall i :: 0 <= i < |s| ==> s[i] == ' '
  }

  /** A header line as the constructor reads it; `None` where it throws. A value that is only
      spaces is kept as it stands. */
  function ParseHeader(line: string): Option<Header> {
    var colon := Find(line, ":");
    if colon == -1 then None
    else
      var rest := line[colon + 1..];
      Some(Header(line[..colon], Value(rest)))
  }

  /** The text after the colon without its leading spaces, unless it is only spaces. */
  function Value(rest: string): string {
    if Strip(rest) == "" then rest else Strip(rest)
  }

  function PrintHeader(h: Header): string {
    h.key + ": " + h.value
  }

  /** The headers a caller can print and read back: exactly these survive the round trip. */
  predicate Printable(h: Header) {
    Free(h.key, ":") && h.value != "" && h.value[0] != ' '
  }

  lemma {:induction false} StripSplits(s: string) returns (n: nat)
    ensures n <= |s| && Blank(s[..n]) && Strip(s) == s[n..]
    ensures Strip(s) == "" || Strip(s)[0] != ' '
    ensures Strip(s) == "" <==> Blank(s)
  {
    if s != "" && s[0] == ' ' {
      var m := StripSplits(s[1..]);
      n := m + 1;
      assert forall i :: 0 < i < |s| ==> s[i] == s[1..][i - 1];
      assert forall i :: 0 < i < n ==> s[i] == s[1..][..m][i - 1];
    } else {
      n := 0;
    }
  }

  lemma ColonAt(key: string, rest: string)
    ensures Free(key, ":") ==> Find(key + ":" + rest, ":") == |key|
    ensures !Free(key, ":") ==> Find(key + ":" + rest, ":") == Find(key, ":")
  {
    var s := key + ":" + rest;
    assert s == key + (":" + rest);
    assert At(s, ":", |key|);
    FindExtend(key, ":" + rest, ":");
  }

  lemma ParseJoined(key: string, rest: string)
    ensures Free(key, ":") ==> ParseHeader(key + ":" + rest) == Some(Header(key, Value(rest)))
    ensures !Free(key, ":") ==> ParseHeader(key + ":" + rest).Some? && ParseHeader(key + ":" + rest).value.key != key
  {
    var line := key + ":" + rest;
    ColonAt(key, rest);
    if Free(key, ":") {
      assert line[..|key|] == key && line[|key| + 1..] == rest;
    } else {
      assert |line[..Find(key, ":")]| < |key|;
    }
  }

  lemma SpacedValue(value: string)
    ensures Value(" " + value) == value <==> value != "" && value[0] != ' '
  {
    assert (" " + value)[1..] == value;
    var n := StripSplits(value);
  }

  /** Printing then parsing returns the same header exactly for `Printable` ones. */
  lemma HeaderRoundTrip(h: Header)
    ensures ParseHeader(PrintHeader(h)) == Some(h) <==> Printable(h)
  {
    assert PrintHeader(h) == h.key + ":" + (" " + h.value);
    ParseJoined(h.key, " " + h.value);
    SpacedValue(h.value);
  }

  lemma ValueSplits(rest: string) returns (spaces: string)
    ensures Blank(spaces) && rest == spaces + Value(rest)
    ensures Value(rest) != "" && Value(rest)[0] != ' ' <==> !Blank(Value(rest))
  {
    var n := StripSplits(rest);
    spaces := if Strip(rest) == "" then "" else rest[..n];
  }

  lemma ColonSplits(line: string) returns (key: string, rest: string)
    requires Find(line, ":") != -1
    ensures Free(key, ":") && line == key + ":" + rest
    ensures ParseHeader(line) == Some(Header(key, Value(rest)))
  {
    var colon := Find(line, ":");
    key, rest := line[..colon], line[colon + 1..];
    assert line == key + line[colon..];
    FindExtend(key, line[colon..], ":");
    assert line[colon] == line[colon..colon + 1][0] == ':';
  }

  /** What a parsed header looks like, and how it sits in its line. */
  lemma ParsedHeader(line: string, h: Header) returns (spaces: string)
    requires ParseHeader(line) == Some(h)
    ensures Free(h.key, ":") && Blank(spaces)
    ensures line == h.key + ":" + spaces + h.value
    ensures Printable(h) <==> !Blank(h.value)
  {
    hide Find, Strip, Value;
    var key, rest := ColonSplits(line);
    spaces := ValueSplits(rest);
    assert line == h.key + ":" + (spaces + h.value);
  }

  /** The proxy parses a header and prints it again: reading that back gives the same header
      unless the value was only spaces. */
  lemma ReprintedHeader(line: string, h: Header)
    requires ParseHeader(line) == Some(h)
    ensures ParseHeader(PrintHeader(h)) == Some(h) <==> !Blank(h.value)
  {
    var spaces := ParsedHeader(line, h);
    HeaderRoundTrip(h);
  }

  // ---------------------------------------------------------------- names

  function ToLower(c: char): char {
    if 'A' <= c <= 'Z' then (c as int + 32) as char else c
  }

  function Lower(s: string): string {
    seq(|s|, i requires 0 <= i < |s| => ToLower(s[i]))
  }

  /** Case-insensitive equality after leading spaces. */
  predicate Equivalent(a: string, b: string) {
    Lower(Strip(a)) == Lower(Strip(b))
  }

  /** The value of the first header whose name is equivalent to `name`. */
  function Lookup(headers: seq<Header>, name: string): Option<string> {
    if headers == [] then None
    else if Equivalent(headers[0].key, name) then Some(headers[0].value)
    else Lookup(headers[1..], name)
  }

  lemma {:induction false} LookupFirst(headers: seq<Header>, name: string)
    ensures Lookup(headers, name).None?
            <==> forall i :: 0 <= i < |headers| ==> !Equivalent(headers[i].key, name)
    ensures Lookup(headers, name).Some? ==>
              exists i :: 0 <= i < |headers| && Equivalent(headers[i].key, name)
                && Lookup(headers, name).value == headers[i].value
                && forall j :: 0 <= j < i ==> !Equivalent(headers[j].key, name)
  {
    if headers == [] {
    } else if Equivalent(headers[0].key, name) {
    } else {
      var tail := headers[1..];
      LookupFirst(tail, name);
      assert forall i :: 0 < i < |headers| ==> headers[i] == tail[i - 1];
      if Lookup(tail, name).Some? {
        var i :| 0 <= i < |tail| && Equivalent(tail[i].key, name)
          && Lookup(tail, name).value == tail[i].value
          && forall j :: 0 <= j < i ==> !Equivalent(tail[j].key, name);
        assert headers[i + 1] == tail[i];
      } else {
        assert forall i :: 0 <= i < |tail| ==> tail[i] == headers[i + 1];
      }
    }
  }

  // ---------------------------------------------------------------- names, letter by letter

  const UPPER_LETTERS := "ABCDEFGHIJKLMNOPQRSTUVWXYZ"
  const LOWER_LETTERS := "abcdefghijklmnopqrstuvwxyz"

  /** The two cases of the i-th letter. */
  predicate Cases(upper: char, lower: char, i: int) {
    0 <= i < 26 && upper == UPPER_LETTERS[i] && lower == LOWER_LETTERS[i]
  }

  /** The same byte, or the two cases of one letter. */
  ghost predicate SameLetter(x: char, y: char) {
    x == y || exists i :: Cases(x, y, i) || Cases(y, x, i)
  }

  ghost predicate SameLetters(a: string, b: string) {
    |a| == |b| && forall i :: 0 <= i < |a| ==> SameLetter(a[i], b[i])
  }

  /** `rest` is what follows the leading spaces of `s`. */
  predicate Trimmed(s: string, rest: string) {
    |rest| <= |s| && Blank(s[..|s| - |rest|]) && rest == s[|s| - |rest|..] && (rest == "" || rest[0] != ' ')
  }

  /** The same name, but for leading spaces and the case of its letters. */
  ghost predicate SameName(a: string, b: string) {
    exists x, y :: Trimmed(a, x) && Trimmed(b, y) && SameLetters(x, y)
  }

  lemma TrimmedShortest(s: string, x: string, y: string)
    requires Trimmed(s, x) && Trimmed(s, y)
    ensures |y| <= |x|
  {
    var spaces := s[..|s| - |x|];
    assert forall i :: 0 <= i < |spaces| ==> s[i] == spaces[i] == ' ';
    assert y != "" ==> y[0] == s[|s| - |y|];
  }

  lemma StripTrims(s: string, rest: string)
    ensures Trimmed(s, rest) <==> rest == Strip(s)
  {
    var n := StripSplits(s);
    assert |Strip(s)| == |s| - n;
    assert Trimmed(s, Strip(s));
    if Trimmed(s, rest) {
      TrimmedShortest(s, rest, Strip(s));
      TrimmedShortest(s, Strip(s), rest);
    }
  }

  lemma CasesAre(upper: char, lower: char, i: int)
    ensures Cases(upper, lower, i)
            <==> 0 <= i < 26 && upper == ('A' as int + i) as char && lower == ('a' as int + i) as char
  {
  }

  lemma CaseOf(x: char, y: char)
    ensures ToLower(x) == ToLower(y) <==> SameLetter(x, y)
  {
    hide Cases;
    if x != y && ToLower(x) == ToLower(y) {
      var i := if 'A' <= x <= 'Z' then x as int - 'A' as int else y as int - 'A' as int;
      CasesAre(x, y, i);
      CasesAre(y, x, i);
    }
    if x != y && SameLetter(x, y) {
      var i :| Cases(x, y, i) || Cases(y, x, i);
      CasesAre(x, y, i);
      CasesAre(y, x, i);
    }
  }

  /** The comparison that finds a header decides whether two names are the same. */
  lemma EquivalentExactly(a: string, b: string)
    ensures Equivalent(a, b) <==> SameName(a, b)
  {
    hide Strip, SameLetter, ToLower, Trimmed;
    var x, y := Strip(a), Strip(b);
    StripTrims(a, x);
    StripTrims(b, y);
    LowerExactly(x, y);
    if SameName(a, b) {
      var u, v :| Trimmed(a, u) && Trimmed(b, v) && SameLetters(u, v);
      StripTrims(a, u);
      StripTrims(b, v);
    }
  }

  lemma LowerExactly(x: string, y: string)
    ensures Lower(x) == Lower(y) <==> SameLetters(x, y)
  {
    hide ToLower, SameLetter;
    if |x| == |y| {
      forall i | 0 <= i < |x| ensures Lower(x)[i] == Lower(y)[i] <==> SameLetter(x[i], y[i]) { CaseOf(x[i], y[i]); }
      if Lower(x) == Lower(y) {
        assert forall i :: 0 <= i < |x| ==> Lower(x)[i] == Lower(y)[i];
      }
    } else {
      assert |Lower(x)| != |Lower(y)|;
    }
  }

  /** Header i is the first with this name. */
  ghost predicate FirstNamed(headers: seq<Header>, name: string, i: int) {
    0 <= i < |headers| && SameName(headers[i].key, name)
    && forall j :: 0 <= j < i ==> !SameName(headers[j].key, name)
  }

  /** The lookup gives the value of the first header with the name. */
  lemma LookupExactly(headers: seq<Header>, name: string, value: string)
    ensures Lookup(headers, name) == Some(value)
            <==> exists i :: FirstNamed(headers, name, i) && headers[i].value == value
    ensures Lookup(headers, name) == None <==> forall i :: 0 <= i < |headers| ==> !SameName(headers[i].key, name)
  {
    hide Equivalent, SameName, Lookup;
    forall i | 0 <= i < |headers| ensures Equivalent(headers[i].key, name) <==> SameName(headers[i].key, name) {
      EquivalentExactly(headers[i].key, name);
    }
    LookupFirst(headers, name);
  }
}
