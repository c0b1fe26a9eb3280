/** Byte strings: the substring search, the line terminator and the number reader that the
    HTTP code builds on. A string is a sequence of bytes held as `char`. */
module Text {

  datatype Option<+T> = None | Some(value: T)

  const CRLF := "\r\n"

  /** `needle` occurs in `s` at offset `k`. */
  predicate At(s: string, needle: string, k: int) {
    0 <= k && k + |needle| <= |s| && s[k..k + |needle|] == needle
  }

  /** The first offset at or after `i` where `needle` occurs, or -1. */
  function FindFrom(s: string, needle: string, i: nat): (r: int)
    requires i <= |s|
    ensures r == -1 || (i <= r && At(s, needle, r))
    ensures forall k :: i <= k && At(s, needle, k) ==> r != -1 && r <= k
    decreases |s| - i
  {
    if At(s, needle, i) then i
    else if i == |s| then -1
    else FindFrom(s, needle, i + 1)
  }

  /** `std::string::find`, with -1 for `npos`. */
  function Find(s: string, needle: string): (r: int)
    ensures r == -1 || At(s, needle, r)
    ensures forall k :: At(s, needle, k) ==> r != -1 && r <= k
  {
    FindFrom(s, needle, 0)
  }

  predicate Free(s: string, needle: string) {
    Find(s, needle) == -1
  }

  lemma AtExtend(s: string, t: string, needle: string, k: int)
    requires k + |needle| <= |s|
    ensures At(s + t, needle, k) == At(s, needle, k)
  {
    if 0 <= k {
      assert (s + t)[k..k + |needle|] == s[k..k + |needle|];
    }
  }

  lemma AtShift(prefix: string, s: string, needle: string, k: nat)
    ensures At(prefix + s, needle, |prefix| + k) == At(s, needle, k)
  {
    if k + |needle| <= |s| {
      assert (prefix + s)[|prefix| + k..|prefix| + k + |needle|] == s[k..k + |needle|];
    }
  }

  lemma AtDouble(s: string, k: nat)
    ensures At(s, CRLF + CRLF, k) <==> At(s, CRLF, k) && At(s, CRLF, k + 2)
  {
    if k + 4 <= |s| {
      var both := s[k..k + 4];
      assert s[k..k + 2] == both[..2] && s[k + 2..k + 4] == both[2..];
      assert both == both[..2] + both[2..];
    }
  }

  /** Appending bytes never moves a match, and a new match must use an appended byte. */
  lemma FindExtend(s: string, t: string, needle: string)
    ensures Find(s, needle) != -1 ==> Find(s + t, needle) == Find(s, needle)
    ensures Find(s, needle) == -1 && Find(s + t, needle) != -1
            ==> Find(s + t, needle) + |needle| > |s|
  {
    var r, r' := Find(s, needle), Find(s + t, needle);
    if r != -1 { AtExtend(s, t, needle, r); }
    if r' != -1 && r' + |needle| <= |s| { AtExtend(s, t, needle, r'); }
  }

  /** A line without CRLF, once terminated, is found whole. */
  lemma LineEnd(line: string, rest: string)
    requires Free(line, CRLF)
    ensures Find(line + CRLF + rest, CRLF) == |line|
  {
    var s := line + CRLF + rest;
    assert s == line + (CRLF + rest);
    assert At(s, CRLF, |line|);
    var r := Find(s, CRLF);
    FindExtend(line, CRLF + rest, CRLF);
    assert s[|line|] == '\r';
  }

  lemma FreeByte(s: string, b: char)
    ensures Free(s, [b]) <==> b !in s
  {
    if b in s {
      var k :| 0 <= k < |s| && s[k] == b;
      assert At(s, [b], k);
    }
    if !Free(s, [b]) {
      var k := Find(s, [b]);
      assert s[k..k + 1][0] == s[k];
    }
  }

  /** Where the first part of a string that is cut at `b` ends. */
  lemma CutAt(head: string, tail: string, b: char)
    requires b !in head && (tail == "" || tail[0] == b)
    ensures Find(head + tail, [b]) == if tail == "" then -1 else |head|
  {
    var s := head + tail;
    FreeByte(head, b);
    if tail == "" {
      assert s == head;
    } else {
      assert s[|head|..|head| + 1] == [b];
      assert At(s, [b], |head|);
      FindExtend(head, tail, [b]);
    }
  }

  lemma CutFound(s: string, b: char)
    ensures var r := Find(s, [b]);
      if r == -1 then b !in s else 0 <= r < |s| && s[r] == b && b !in s[..r]
  {
    var r := Find(s, [b]);
    FreeByte(s, b);
    if r != -1 {
      assert s[r] == s[r..r + 1][0];
      forall i | 0 <= i < r ensures s[i] != b {
        assert s[i..i + 1] == [s[i]] && !At(s, [b], i);
      }
    }
  }

  lemma FreeLonger(s: string, needle: string)
    requires needle != "" && Free(s, [needle[0]])
    ensures Free(s, needle)
  {
    forall k | At(s, needle, k) ensures At(s, [needle[0]], k) {
      assert s[k] == s[k..k + |needle|][0];
    }
  }

  // ---------------------------------------------------------------- lines and segments

  /** Lines each ended by CRLF, then an empty line: a header block or a trailer section. */
  function Block(lines: seq<string>): string {
    if lines == [] then CRLF else lines[0] + CRLF + Block(lines[1..])
  }

  predicate BlockLines(lines: seq<string>) {
    forall i :: 0 <= i < |lines| ==> lines[i] != "" && Free(lines[i], CRLF)
  }

  lemma FirstLineEnd(lines: seq<string>, rest: string)
    requires BlockLines(lines)
    ensures Find(Block(lines) + rest, CRLF) == if lines == [] then 0 else |lines[0]|
  {
    if lines == [] {
      assert (CRLF + rest)[..2] == CRLF;
      assert At(CRLF + rest, CRLF, 0);
    } else {
      LineEnd(lines[0], Block(lines[1..]) + rest);
      assert Block(lines) + rest == lines[0] + CRLF + (Block(lines[1..]) + rest);
    }
  }

  lemma BlockHead(lines: seq<string>, rest: string)
    requires BlockLines(lines) && lines != []
    ensures BlockLines(lines[1..])
    ensures var s := Block(lines) + rest;
      Find(s, CRLF) == |lines[0]| > 0 && lines[0] == s[..|lines[0]|]
      && Block(lines[1..]) + rest == s[|lines[0]| + 2..]
  {
    hide Find;
    FirstLineEnd(lines, rest);
    assert Block(lines) + rest == lines[0] + (CRLF + (Block(lines[1..]) + rest));
  }

  lemma {:induction false} BlockUnique(xs: seq<string>, x: string, ys: seq<string>, y: string)
    requires BlockLines(xs) && BlockLines(ys)
    requires Block(xs) + x == Block(ys) + y
    ensures xs == ys && x == y
    decreases |xs|
  {
    hide Find, Block, BlockLines;
    FirstLineEnd(xs, x);
    FirstLineEnd(ys, y);
    if xs != [] { BlockHead(xs, x); }
    if ys != [] { BlockHead(ys, y); }
    if xs == [] {
      BlockEmpty(x);
      BlockEmpty(y);
    } else {
      BlockUnique(xs[1..], x, ys[1..], y);
      assert xs == [xs[0]] + xs[1..] && ys == [ys[0]] + ys[1..];
    }
  }

  lemma BlockEmpty(rest: string)
    ensures (Block([]) + rest)[2..] == rest
  {
  }

  function Concat(segments: seq<string>): string {
    if segments == [] then "" else segments[0] + Concat(segments[1..])
  }

  // ---------------------------------------------------------------- numbers

  const LONG_MAX := 0x7FFF_FFFF_FFFF_FFFF
  const NOT_A_DIGIT := 99

  function DigitValue(c: char): nat {
    if '0' <= c <= '9' then c as int - '0' as int
    else if 'a' <= c <= 'f' then c as int - 'a' as int + 10
    else if 'A' <= c <= 'F' then c as int - 'A' as int + 10
    else NOT_A_DIGIT
  }

  predicate AllDigits(s: string, base: nat) {
    forall i :: 0 <= i < |s| ==> DigitValue(s[i]) < base
  }

  function ValueOf(s: string, base: nat): nat {
    if s == "" then 0 else ValueOf(s[..|s| - 1], base) * base + DigitValue(s[|s| - 1])
  }

  /** `myatoi` on digit strings: `None` where it throws (empty, a non-digit, out of `long` range). */
  function Atoi(s: string, base: nat): Option<nat> {
    if s == "" || !AllDigits(s, base) || ValueOf(s, base) > LONG_MAX then None
    else Some(ValueOf(s, base))
  }

  lemma NoDigit(digits: string, needle: string, base: nat)
    requires AllDigits(digits, base) && needle != "" && DigitValue(needle[0]) >= base
    ensures Free(digits, needle)
  {
    FreeByte(digits, needle[0]);
    FreeLonger(digits, needle);
  }

  function DigitChar(d: nat): char
    requires d < 16
  {
    if d < 10 then ('0' as int + d) as char else ('a' as int + d - 10) as char
  }

  /** The usual numeral of `n`, most significant digit first. */
  function Numeral(n: nat, base: nat): string
    requires 2 <= base <= 16
    decreases n
  {
    if n < base then [DigitChar(n)] else Numeral(n / base, base) + [DigitChar(n % base)]
  }

  lemma DigitOf(d: nat)
    requires d < 16
    ensures DigitValue(DigitChar(d)) == d
  {
  }

  lemma ValueOfSnoc(s: string, c: char, base: nat)
    requires AllDigits(s, base) && DigitValue(c) < base
    ensures AllDigits(s + [c], base)
    ensures ValueOf(s + [c], base) == ValueOf(s, base) * base + DigitValue(c)
  {
    assert (s + [c])[..|s|] == s;
  }

  lemma DivMod(n: nat, base: nat)
    requires 0 < base
    ensures n == n / base * base + n % base && 0 <= n % base < base
  {
  }

  lemma SingleDigit(d: nat, base: nat)
    requires d < base <= 16
    ensures AllDigits([DigitChar(d)], base) && ValueOf([DigitChar(d)], base) == d
  {
    DigitOf(d);
    ValueOfSnoc("", DigitChar(d), base);
    assert "" + [DigitChar(d)] == [DigitChar(d)];
    assert ValueOf("", base) == 0;
    assert 0 * base == 0;
  }

  lemma NumeralStep(n: nat, base: nat)
    requires 2 <= base <= 16 && base <= n
    ensures n / base < n && n == n / base * base + n % base
    ensures Numeral(n, base) == Numeral(n / base, base) + [DigitChar(n % base)]
  {
    DivMod(n, base);
  }

  lemma {:induction false} NumeralValue(n: nat, base: nat)
    requires 2 <= base <= 16
    ensures Numeral(n, base) != "" && AllDigits(Numeral(n, base), base)
    ensures ValueOf(Numeral(n, base), base) == n
    decreases n
  {
    if n < base {
      SingleDigit(n, base);
    } else {
      hide DigitChar, DigitValue, ValueOf, Numeral;
      var q, r := n / base, n % base;
      NumeralStep(n, base);
      NumeralValue(q, base);
      DigitOf(r);
      ValueOfSnoc(Numeral(q, base), DigitChar(r), base);
    }
  }

  /** Reading a printed number gives the number back. */
  lemma AtoiNumeral(n: nat, base: nat)
    requires 2 <= base <= 16
    ensures Atoi(Numeral(n, base), base) == if n <= LONG_MAX then Some(n) else None
  {
    NumeralValue(n, base);
  }

  // ---------------------------------------------------------------- numerals, digit by digit

  const LOWER_DIGITS := "0123456789abcdef"
  const UPPER_DIGITS := "0123456789ABCDEF"

  /** `s` is written with the digits `ds`, in either case. */
  predicate Spells(s: string, ds: seq<nat>, base: nat)
    requires base <= 16
  {
    |s| == |ds|
    && forall i :: 0 <= i < |s| ==> ds[i] < base && (s[i] == LOWER_DIGITS[ds[i]] || s[i] == UPPER_DIGITS[ds[i]])
  }

  /** The number with the digits `ds`, most significant first. */
  function Horner(ds: seq<nat>, base: nat): nat {
    if ds == [] then 0 else Horner(ds[..|ds| - 1], base) * base + ds[|ds| - 1]
  }

  /** `s` is a numeral of n. */
  ghost predicate NumeralOf(s: string, base: nat, n: nat)
    requires base <= 16
  {
    s != "" && exists ds :: Spells(s, ds, base) && Horner(ds, base) == n
  }

  lemma DigitIs(c: char, d: nat)
    requires d < 16
    ensures DigitValue(c) == d <==> c == LOWER_DIGITS[d] || c == UPPER_DIGITS[d]
  {
  }

  lemma {:induction false} SpellsValue(s: string, ds: seq<nat>, base: nat)
    requires base <= 16 && Spells(s, ds, base)
    ensures AllDigits(s, base) && ValueOf(s, base) == Horner(ds, base)
    decreases |s|
  {
    hide DigitValue;
    forall i | 0 <= i < |s| ensures DigitValue(s[i]) == ds[i] { DigitIs(s[i], ds[i]); }
    if s != "" { SpellsValue(s[..|s| - 1], ds[..|ds| - 1], base); }
  }

  lemma DigitsOf(s: string, base: nat) returns (ds: seq<nat>)
    requires base <= 16 && AllDigits(s, base)
    ensures Spells(s, ds, base)
  {
    hide DigitValue;
    ds := seq(|s|, i requires 0 <= i < |s| => DigitValue(s[i]));
    forall i | 0 <= i < |s| ensures s[i] == LOWER_DIGITS[ds[i]] || s[i] == UPPER_DIGITS[ds[i]] { DigitIs(s[i], ds[i]); }
  }

  /** `myatoi` accepts exactly the numerals of numbers within the range of `long`. */
  lemma AtoiExactly(s: string, base: nat, n: nat)
    requires base <= 16
    ensures Atoi(s, base) == Some(n) <==> NumeralOf(s, base, n) && n <= 0x7FFF_FFFF_FFFF_FFFF
  {
    hide DigitValue, ValueOf, Horner, Spells;
    if Atoi(s, base).Some? {
      var ds := DigitsOf(s, base);
      SpellsValue(s, ds, base);
    }
    if NumeralOf(s, base, n) {
      var ds :| Spells(s, ds, base) && Horner(ds, base) == n;
      SpellsValue(s, ds, base);
    }
  }
}
