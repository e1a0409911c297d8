/**
 * The part of C++ formatted stream I/O that the program's text formats rely on: operator>> into a string or an
 * unsigned integer, operator<< of an unsigned integer, and std::to_string.
 */
module Text {

  // std::isspace in the "C" locale: space, \t, \n, \v, \f, \r.
  predicate IsSpace(c: char) {
    c == ' ' || '\t' <= c <= '\r'
  }

  predicate IsDigit(c: char) {
    '0' <= c <= '9'
  }

  // A lower-case hexadecimal digit.
  predicate IsHexDigit(c: char) {
    '0' <= c <= '9' || 'a' <= c <= 'f'
  }

  predicate NoSpace(s: string) {
    forall i | 0 <= i < |s| :: !IsSpace(s[i])
  }

  // What operator>> can put into a std::string.
  predicate IsToken(s: string) {
    s != [] && NoSpace(s)
  }

  // Outcome of one extraction: the failbit, or a value and the unread input.
  datatype Extracted<+T> = Fail | Got(value: T, rest: string)

  function SkipSpace(s: string): (r: string)
    ensures |r| <= |s|
    ensures r != [] ==> !IsSpace(r[0])
  {
    if s != [] && IsSpace(s[0]) then SkipSpace(s[1..]) else s
  }

  function WordLength(s: string): (n: nat)
    ensures n <= |s| && NoSpace(s[..n])
    ensures n < |s| ==> IsSpace(s[n])
  {
    if s == [] || IsSpace(s[0]) then 0 else 1 + WordLength(s[1..])
  }

  function DigitLength(s: string): (n: nat)
    ensures n <= |s| && IsDigits(s[..n])
    ensures n < |s| ==> !IsDigit(s[n])
  {
    if s == [] || !IsDigit(s[0]) then 0 else 1 + DigitLength(s[1..])
  }

  predicate IsDigits(s: string) {
    forall i | 0 <= i < |s| :: IsDigit(s[i])
  }

  // in >> std::string
  function ReadWord(s: string): (r: Extracted<string>)
    ensures r.Got? ==> IsToken(r.value) && |r.rest| < |s|
  {
    var t := SkipSpace(s);
    var n := WordLength(t);
    if n == 0 then Fail else Got(t[..n], t[n..])
  }

  // in >> size_t: decimal digits up to the first other character.
  function ReadNat(s: string): (r: Extracted<nat>)
    ensures r.Got? ==> |r.rest| < |s|
  {
    var t := SkipSpace(s);
    var n := DigitLength(t);
    if n == 0 then Fail else Got(NatValue(t[..n]), t[n..])
  }

  // out << size_t, std::to_string
  function NatText(n: nat): (s: string)
    ensures s != [] && IsDigits(s) && IsToken(s)
  {
    if n < 10 then [DigitChar(n)] else NatText(n / 10) + [DigitChar(n % 10)]
  }

  // std::to_string of an int
  function IntText(n: int): string {
    if n < 0 then "-" + NatText(-n) else NatText(n)
  }

  function DigitChar(d: nat): (c: char)
    requires d < 10
    ensures IsDigit(c) && !IsSpace(c)
  {
    '0' + d as char
  }

  function NatValue(s: string): nat
    requires IsDigits(s)
  {
    if s == [] then 0 else 10 * NatValue(s[..|s| - 1]) + (s[|s| - 1] - '0') as nat
  }

  lemma {:induction false} NatRoundTrip(n: nat)
    ensures NatValue(NatText(n)) == n
  {
    if n >= 10 {
      NatRoundTrip(n / 10);
      assert NatText(n)[..|NatText(n)| - 1] == NatText(n / 10);
    } else {
      assert NatText(n)[..0] == [];
    }
  }

  function Pow10(k: nat): nat {
    if k == 0 then 1 else 10 * Pow10(k - 1)
  }

  lemma {:induction false} NatTextLength(n: nat, k: nat)
    requires k > 0 && n < Pow10(k)
    ensures |NatText(n)| <= k
  {
    if n >= 10 {
      NatTextLength(n / 10, k - 1);
    }
  }

  // A 64-bit number has at most 20 digits.
  lemma MachineNumberLength(n: nat)
    requires n < 0x1_0000_0000_0000_0000
    ensures |NatText(n)| <= 20
  {
    assert Pow10(2) == 100;
    assert Pow10(4) == 10000;
    assert Pow10(6) == 1000000;
    assert Pow10(8) == 100000000;
    assert Pow10(10) == 10000000000;
    assert Pow10(12) == 1000000000000;
    assert Pow10(14) == 100000000000000;
    assert Pow10(16) == 10000000000000000;
    assert Pow10(18) == 1000000000000000000;
    assert Pow10(20) == 100000000000000000000;
    NatTextLength(n, 20);
  }

  lemma Assoc(a: string, b: string, c: string)
    ensures (a + b) + c == a + (b + c)
  {
  }

  // A word, or a number, is over where a white-space character or the end of the input follows it.
  predicate Ends(rest: string) {
    rest == [] || IsSpace(rest[0])
  }

  lemma {:induction false} WordLengthOf(w: string, rest: string)
    requires NoSpace(w) && Ends(rest)
    ensures WordLength(w + rest) == |w|
  {
    if w == [] {
      assert w + rest == rest;
    } else {
      assert (w + rest)[1..] == w[1..] + rest;
      WordLengthOf(w[1..], rest);
    }
  }

  lemma {:induction false} DigitLengthOf(w: string, rest: string)
    requires IsDigits(w) && Ends(rest)
    ensures DigitLength(w + rest) == |w|
  {
    if w == [] {
      assert w + rest == rest;
    } else {
      assert (w + rest)[1..] == w[1..] + rest;
      DigitLengthOf(w[1..], rest);
    }
  }

  // Reading back a printed word, with or without one white-space character in front of it.
  lemma ReadWordOf(w: string, rest: string)
    requires IsToken(w) && Ends(rest)
    ensures ReadWord(w + rest) == Got(w, rest)
    ensures forall c | IsSpace(c) :: ReadWord([c] + (w + rest)) == Got(w, rest)
  {
    WordLengthOf(w, rest);
    assert SkipSpace(w + rest) == w + rest;
    assert (w + rest)[..|w|] == w && (w + rest)[|w|..] == rest;
    forall c | IsSpace(c) ensures SkipSpace([c] + (w + rest)) == w + rest {
      assert ([c] + (w + rest))[1..] == w + rest;
    }
  }

  lemma ReadNatOf(n: nat, rest: string)
    requires Ends(rest)
    ensures ReadNat(NatText(n) + rest) == Got(n, rest)
    ensures forall c | IsSpace(c) :: ReadNat([c] + (NatText(n) + rest)) == Got(n, rest)
  {
    var w := NatText(n);
    DigitLengthOf(w, rest);
    NatRoundTrip(n);
    assert SkipSpace(w + rest) == w + rest;
    assert (w + rest)[..|w|] == w && (w + rest)[|w|..] == rest;
    forall c | IsSpace(c) ensures SkipSpace([c] + (w + rest)) == w + rest {
      assert ([c] + (w + rest))[1..] == w + rest;
    }
  }
}
