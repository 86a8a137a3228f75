/**
 * The pieces of Rust's string library that the poll state relies on, stated
 * over `seq<char>`: ASCII lower-casing, single-character `replace`, `split`,
 * decimal formatting of a count, `str::parse::<usize>` and the line splitting
 * of `BufRead::lines`.
 */
module Strings {
  import opened Wrappers

  /** `usize::MAX` on a 64-bit target. */
  const USIZE_MAX: nat := 0xFFFF_FFFF_FFFF_FFFF

  predicate IsUpper(c: char) { 'A' <= c <= 'Z' }

  predicate IsDigit(c: char) { '0' <= c <= '9' }

  predicate AllDigits(s: string) { forall i :: 0 <= i < |s| ==> IsDigit(s[i]) }

  function LowerChar(c: char): (d: char)
    ensures !IsUpper(d)
    ensures !IsUpper(c) ==> d == c
  {
    if IsUpper(c) then (c as int + 32) as char else c
  }

  /** `str::to_lowercase` on ASCII letters; every other character is kept as it is. */
  function ToLower(s: string): (r: string)
    ensures |r| == |s|
  {
    seq(|s|, i requires 0 <= i < |s| => LowerChar(s[i]))
  }

  lemma LowerHasNoUpper(s: string)
    ensures forall c :: c in ToLower(s) ==> !IsUpper(c)
  {
  }

  lemma LowerKeepsLower(s: string)
    requires forall c :: c in s ==> !IsUpper(c)
    ensures ToLower(s) == s
  {
  }

  /** `str::replace(x, "")` for a one-character pattern: every `x` is dropped. */
  function RemoveAll(s: string, x: char): string
  {
    if s == [] then [] else (if s[0] == x then [] else [s[0]]) + RemoveAll(s[1..], x)
  }

  /** No `x` is left, no character is added, and a string without `x` is kept as it is. */
  lemma {:induction false} RemoveAllFrom(s: string, x: char)
    ensures x !in RemoveAll(s, x)
    ensures forall c :: c in RemoveAll(s, x) ==> c in s
    ensures x !in s ==> RemoveAll(s, x) == s
  {
    if s != [] {
      RemoveAllFrom(s[1..], x);
      assert s == [s[0]] + s[1..];
    }
  }

  lemma {:induction false} RemoveAllAppend(a: string, b: string, x: char)
    ensures RemoveAll(a + b, x) == RemoveAll(a, x) + RemoveAll(b, x)
  {
    if a != [] {
      assert (a + b)[0] == a[0];
      assert (a + b)[1..] == a[1..] + b;
      RemoveAllAppend(a[1..], b, x);
    } else {
      assert a + b == b;
    }
  }

  /** Removing the one `x` between two pieces that hold none joins the pieces. */
  lemma RemoveOne(a: string, x: char, b: string)
    requires x !in a && x !in b
    ensures RemoveAll(a + [x] + b, x) == a + b
  {
    RemoveAllFrom(a, x);
    RemoveAllFrom(b, x);
    assert [x][1..] == [];
    assert RemoveAll([x], x) == [] + RemoveAll([], x);
    RemoveAllAppend(a, [x], x);
    assert RemoveAll(a + [x], x) == a;
    RemoveAllAppend(a + [x], b, x);
  }

  /** `str::replace(from, to)` for one-character patterns: every `from` becomes `to`. */
  function ReplaceChar(s: string, from: char, to: char): (r: string)
    requires from != to
    ensures |r| == |s|
  {
    seq(|s|, i requires 0 <= i < |s| => if s[i] == from then to else s[i])
  }

  /** After the replacement no `from` is left, and every other character was already there. */
  lemma ReplaceCharFrom(s: string, from: char, to: char)
    requires from != to
    ensures from !in ReplaceChar(s, from, to)
    ensures forall c :: c in ReplaceChar(s, from, to) && c != to ==> c in s
    ensures from !in s ==> ReplaceChar(s, from, to) == s
  {
  }

  /** The position of the first `c` in `s`. */
  function IndexOf(s: string, c: char): (i: nat)
    requires c in s
    ensures i < |s| && s[i] == c && c !in s[..i]
  {
    if s[0] == c then 0 else 1 + IndexOf(s[1..], c)
  }

  lemma IndexOfAfter(a: string, c: char, b: string)
    requires c !in a
    ensures c in a + [c] + b && IndexOf(a + [c] + b, c) == |a|
  {
    var s := a + [c] + b;
    assert s[|a|] == c;
    assert s[..|a|] == a;
  }

  /** `str::split(sep)` for a one-character separator: n separators give n + 1 fields. */
  function Split(s: string, sep: char): (fields: seq<string>)
    ensures |fields| >= 1
    decreases |s|
  {
    if sep !in s then [s]
    else
      var i := IndexOf(s, sep);
      [s[..i]] + Split(s[i + 1..], sep)
  }

  lemma SplitAfter(a: string, sep: char, b: string)
    requires sep !in a
    ensures Split(a + [sep] + b, sep) == [a] + Split(b, sep)
  {
    IndexOfAfter(a, sep, b);
    var s := a + [sep] + b;
    assert s[..|a|] == a;
    assert s[|a| + 1..] == b;
  }

  /** A field followed by nothing or by a `sep`-led tail is the first field. */
  lemma SplitFirst(a: string, sep: char, tail: string)
    requires sep !in a
    requires tail == [] || tail[0] == sep
    ensures Split(a + tail, sep)[0] == a
  {
    if tail == [] {
      assert a + tail == a;
    } else {
      assert a + tail == a + [sep] + tail[1..];
      SplitAfter(a, sep, tail[1..]);
    }
  }

  /** Three fields joined by `sep`, then nothing or a further `sep`-led tail. */
  lemma SplitThree(a: string, b: string, c: string, sep: char, tail: string)
    requires sep !in a && sep !in b && sep !in c
    requires tail == [] || tail[0] == sep
    ensures var f := Split(a + [sep] + (b + [sep] + (c + tail)), sep);
      |f| >= 3 && f[0] == a && f[1] == b && f[2] == c
  {
    SplitAfter(a, sep, b + [sep] + (c + tail));
    SplitAfter(b, sep, c + tail);
    SplitFirst(c, sep, tail);
  }

  function DigitChar(d: nat): (c: char)
    requires d < 10
    ensures IsDigit(c)
  {
    ('0' as int + d) as char
  }

  function DigitValue(c: char): (d: nat)
    requires IsDigit(c)
    ensures d < 10
  {
    c as int - '0' as int
  }

  /** The value of a string of decimal digits, most significant first. */
  function DigitsValue(s: string): nat
    requires AllDigits(s)
  {
    if s == [] then 0 else 10 * DigitsValue(s[..|s| - 1]) + DigitValue(s[|s| - 1])
  }

  /** The decimal representation `format!("{}", n)` writes. */
  function Decimal(n: nat): (r: string)
    ensures |r| >= 1 && AllDigits(r) && DigitsValue(r) == n
    decreases n
  {
    if n < 10 then [DigitChar(n)] else Decimal(n / 10) + [DigitChar(n % 10)]
  }

  /**
   * `str::parse::<usize>()`: an optional leading '+', then at least one ASCII
   * digit and nothing else, with a value that fits in a `usize`.
   */
  function ParseUsize(s: string): Option<nat>
  {
    var digits := if |s| > 0 && s[0] == '+' then s[1..] else s;
    if |digits| == 0 || !AllDigits(digits) || DigitsValue(digits) > USIZE_MAX then None
    else Some(DigitsValue(digits))
  }

  lemma ParseDecimal(n: nat)
    requires n <= USIZE_MAX
    ensures ParseUsize(Decimal(n)) == Some(n)
  {
    assert IsDigit(Decimal(n)[0]);
  }

  predicate EndsWithCR(s: string) { |s| > 0 && s[|s| - 1] == '\r' }

  function StripCR(line: string): string
  {
    if EndsWithCR(line) then line[..|line| - 1] else line
  }

  /**
   * `BufRead::lines`: the text is cut at every '\n'; a line ended by '\n' also
   * loses one '\r' before it; a final piece without '\n' is a line only when
   * it is not empty.
   */
  function ReadLines(text: string): seq<string>
    decreases |text|
  {
    if text == [] then []
    else if '\n' !in text then [text]
    else
      var i := IndexOf(text, '\n');
      [StripCR(text[..i])] + ReadLines(text[i + 1..])
  }

  /** The file contents after writing `chunks` one after the other. */
  function Concat(chunks: seq<string>): string
  {
    if chunks == [] then [] else chunks[0] + Concat(chunks[1..])
  }

  /** Every line followed by its "\n" terminator. */
  function Terminated(lines: seq<string>): (r: seq<string>)
    ensures |r| == |lines|
  {
    seq(|lines|, i requires 0 <= i < |lines| => lines[i] + "\n")
  }

  /** A line without '\n' or a final '\r', then its terminator, is read back as that line. */
  lemma ReadLine(line: string, rest: string)
    requires '\n' !in line && !EndsWithCR(line)
    ensures ReadLines(line + "\n" + rest) == [line] + ReadLines(rest)
  {
    var text := line + "\n" + rest;
    IndexOfAfter(line, '\n', rest);
    assert text[..|line|] == line;
    assert text[|line| + 1..] == rest;
  }

  /** Reading back a file written as terminated lines gives those lines. */
  lemma {:induction false} ReadTerminated(lines: seq<string>)
    requires forall i :: 0 <= i < |lines| ==> '\n' !in lines[i] && !EndsWithCR(lines[i])
    ensures ReadLines(Concat(Terminated(lines))) == lines
  {
    if lines != [] {
      var t := Terminated(lines);
      assert t[1..] == Terminated(lines[1..]);
      ReadTerminated(lines[1..]);
      assert Concat(t) == lines[0] + "\n" + Concat(t[1..]);
      ReadLine(lines[0], Concat(t[1..]));
    }
  }
}
