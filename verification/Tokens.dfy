/** Formatted input as the log readers use it: words separated by white space, and
    decimal integers. A file is the sequence of its characters. */
module Tokens {

  import opened Options

  predicate IsSpace(c: char): (r: bool)
    ensures r <==> c as int == 32 || 9 <= c as int <= 13
  {
    c == ' ' || c == '\t' || c == '\n' || c == '\r' || c == '\U{0B}' || c == '\U{0C}'
  }

  /** A non-empty word without white space. */
  predicate Token(s: string)
  {
    s != [] && forall i :: 0 <= i < |s| ==> !IsSpace(s[i])
  }

  predicate Blank(s: string)
  {
    forall i :: 0 <= i < |s| ==> IsSpace(s[i])
  }

  function SkipSpace(s: string): (r: string)
    ensures |r| <= |s| && (r == [] || !IsSpace(r[0]))
  {
    if s == [] || !IsSpace(s[0]) then s else SkipSpace(s[1..])
  }

  /** The length of the word that s starts with. */
  function WordLength(s: string): (n: nat)
    ensures n <= |s|
  {
    if s == [] || IsSpace(s[0]) then 0 else 1 + WordLength(s[1..])
  }

  /** Reads one word: the word and what is left, or nothing at the end of the input. */
  function ReadWord(s: string): (r: Option<(string, string)>)
    ensures r.Some? ==> |r.value.1| < |s|
  {
    var t := SkipSpace(s);
    if t == [] then None else Some((t[..WordLength(t)], t[WordLength(t)..]))
  }

  /** The next character, if any, ends a word. */
  predicate AtBreak(rest: string)
  {
    rest == [] || IsSpace(rest[0])
  }

  lemma {:induction false} SkipBlank(blank: string, s: string)
    requires Blank(blank)
    ensures SkipSpace(blank + s) == SkipSpace(s)
  {
    if blank == [] {
      assert blank + s == s;
    } else {
      assert (blank + s)[1..] == blank[1..] + s;
      SkipBlank(blank[1..], s);
    }
  }

  lemma BlankHasNoWord(blank: string)
    requires Blank(blank)
    ensures ReadWord(blank) == None
  {
    SkipBlank(blank, []);
    assert blank + [] == blank;
  }

  lemma {:induction false} WordEnds(w: string, rest: string)
    requires (forall i :: 0 <= i < |w| ==> !IsSpace(w[i])) && AtBreak(rest)
    ensures WordLength(w + rest) == |w|
  {
    if w == [] {
      assert w + rest == rest;
    } else {
      assert (w + rest)[1..] == w[1..] + rest;
      WordEnds(w[1..], rest);
    }
  }

  /** A word between white space is read back whole. */
  lemma ReadsWord(blank: string, w: string, rest: string)
    requires Blank(blank) && Token(w) && AtBreak(rest)
    ensures ReadWord(blank + w + rest) == Some((w, rest))
  {
    assert blank + w + rest == blank + (w + rest);
    SkipBlank(blank, w + rest);
    assert SkipSpace(w + rest) == w + rest;
    WordEnds(w, rest);
  }

  lemma {:induction false} WordHasNoSpace(s: string)
    ensures forall i :: 0 <= i < WordLength(s) ==> !IsSpace(s[i])
    ensures WordLength(s) < |s| ==> IsSpace(s[WordLength(s)])
  {
    if s != [] && !IsSpace(s[0]) {
      WordHasNoSpace(s[1..]);
    }
  }

  /** Whatever is read is a word. */
  lemma ReadIsToken(s: string)
    requires ReadWord(s).Some?
    ensures Token(ReadWord(s).value.0) && AtBreak(ReadWord(s).value.1)
  {
    WordHasNoSpace(SkipSpace(s));
  }

  // ------------------------------------------------------------- decimal integers

  const INT_MAX := 0x7FFF_FFFF
  const INT_MIN := -0x8000_0000

  predicate IsDigit(c: char)
  {
    '0' <= c <= '9'
  }

  function DigitLength(s: string): (n: nat)
    ensures n <= |s|
  {
    if s == [] || !IsDigit(s[0]) then 0 else 1 + DigitLength(s[1..])
  }

  function DigitsValue(s: string): int
    requires forall i :: 0 <= i < |s| ==> IsDigit(s[i])
  {
    if s == [] then 0 else 10 * DigitsValue(s[..|s| - 1]) + (s[|s| - 1] as int - '0' as int)
  }

  lemma {:induction false} DigitsAreDigits(s: string)
    ensures forall i :: 0 <= i < DigitLength(s) ==> IsDigit(s[i])
  {
    if s != [] && IsDigit(s[0]) {
      DigitsAreDigits(s[1..]);
    }
  }

  /** Reads an optional sign and digits; fails without digits or outside 32 bits. */
  function ReadInt(s: string): (r: Option<(int, string)>)
    ensures r.Some? ==> |r.value.1| < |s|
  {
    var t := SkipSpace(s);
    var signed := t != [] && (t[0] == '-' || t[0] == '+');
    var u := if signed then t[1..] else t;
    var n := DigitLength(u);
    DigitsAreDigits(u);
    var v := if signed && t[0] == '-' then -DigitsValue(u[..n]) else DigitsValue(u[..n]);
    if n == 0 || v < INT_MIN || v > INT_MAX then None else Some((v, u[n..]))
  }

  /** A natural number in decimal. */
  function Decimal(n: nat): (r: string)
    ensures r != []
  {
    var digit := ('0' as int + n % 10) as char;
    if n < 10 then [digit] else Decimal(n / 10) + [digit]
  }

  lemma {:induction false} DecimalDigits(n: nat)
    ensures forall i :: 0 <= i < |Decimal(n)| ==> IsDigit(Decimal(n)[i])
    ensures DigitsValue(Decimal(n)) == n
  {
    var digit := ('0' as int + n % 10) as char;
    if n < 10 {
      assert Decimal(n) == [digit] && [digit][..0] == [];
    } else {
      DecimalDigits(n / 10);
      assert Decimal(n)[..|Decimal(n)| - 1] == Decimal(n / 10);
    }
  }

  lemma {:induction false} DigitsEnd(w: string, rest: string)
    requires (forall i :: 0 <= i < |w| ==> IsDigit(w[i])) && AtBreak(rest)
    ensures DigitLength(w + rest) == |w|
  {
    if w == [] {
      assert w + rest == rest;
    } else {
      assert (w + rest)[1..] == w[1..] + rest;
      DigitsEnd(w[1..], rest);
    }
  }

  /** A printed number is read back, unless it is too large for an int. */
  lemma ReadsDecimal(blank: string, n: nat, rest: string)
    requires Blank(blank) && AtBreak(rest)
    ensures ReadInt(blank + Decimal(n) + rest) == if n <= 2147483647 then Some((n, rest)) else None
  {
    var w := Decimal(n);
    DecimalDigits(n);
    assert blank + w + rest == blank + (w + rest);
    SkipBlank(blank, w + rest);
    assert IsDigit((w + rest)[0]);
    assert SkipSpace(w + rest) == w + rest;
    DigitsEnd(w, rest);
    assert (w + rest)[..|w|] == w;
  }

  /** The same for a negative one. */
  lemma ReadsNegative(blank: string, n: nat, rest: string)
    requires Blank(blank) && AtBreak(rest)
    ensures ReadInt(blank + ("-" + (Decimal(n) + rest))) == if n <= 2147483648 then Some((-(n as int), rest)) else None
  {
    var w := Decimal(n);
    DecimalDigits(n);
    SkipBlank(blank, "-" + (w + rest));
    assert SkipSpace("-" + (w + rest)) == "-" + (w + rest);
    assert ("-" + (w + rest))[1..] == w + rest;
    DigitsEnd(w, rest);
    assert (w + rest)[..|w|] == w;
  }

  lemma BlankHasNoInt(blank: string)
    requires Blank(blank)
    ensures ReadInt(blank) == None
  {
    SkipBlank(blank, []);
    assert blank + [] == blank;
  }

  lemma ReadIntSkipsBlank(blank: string, s: string)
    requires Blank(blank)
    ensures ReadInt(blank + s) == ReadInt(s)
  {
    SkipBlank(blank, s);
  }

  lemma ReadWordSkipsBlank(blank: string, s: string)
    requires Blank(blank)
    ensures ReadWord(blank + s) == ReadWord(s)
  {
    SkipBlank(blank, s);
  }

  // ------------------------------------------------------------------ lines of text

  /** A file as it grows line by line. */
  function Text(lines: seq<string>): string
  {
    if lines == [] then "" else Text(lines[..|lines| - 1]) + lines[|lines| - 1]
  }

  lemma {:induction false} TextFront(lines: seq<string>)
    requires lines != []
    ensures Text(lines) == lines[0] + Text(lines[1..])
  {
    if |lines| == 1 {
      assert lines[..0] == [] && lines[1..] == [];
    } else {
      var front, rest := lines[..|lines| - 1], lines[1..];
      TextFront(front);
      assert rest[..|rest| - 1] == front[1..];
    }
  }
}
