/** A text as a sequence of words, which is all that formatted input makes of it. */
module Words {
  import opened Text

  function WordsOf(s: string): seq<string>
    decreases |s|
  {
    match ReadWord(s)
    case Fail => []
    case Got(w, rest) => [w] + WordsOf(rest)
  }

  // A number, or something that does not begin like one.
  predicate Clear(w: string) {
    w != "" && (IsDigits(w) || !IsDigit(w[0]))
  }

  predicate IsNumber(w: string) {
    w != "" && IsDigits(w)
  }

  // The word at position i, if there is one, is clear.
  predicate ClearAt(ws: seq<string>, i: nat) {
    i < |ws| ==> Clear(ws[i])
  }

  function Joined(ws: seq<string>): string {
    if ws == [] then "" else " " + (ws[0] + Joined(ws[1..]))
  }

  lemma {:induction false} JoinedWords(ws: seq<string>)
    requires forall w | w in ws :: IsToken(w)
    ensures Ends(Joined(ws)) && WordsOf(Joined(ws)) == ws
  {
    if ws == [] {
      assert SkipSpace("") == "" && WordLength("") == 0;
    } else {
      assert ws == [ws[0]] + ws[1..];
      JoinedWords(ws[1..]);
      ReadWordOf(ws[0], Joined(ws[1..]));
    }
  }

  // What separates words.
  lemma SeparatorsAre(c: char)
    ensures IsSpace(c) <==> c == ' ' || c as int in {9, 10, 11, 12, 13}
  {
  }

  // A line of words, the first of them at its beginning.
  lemma LineWords(w: string, ws: seq<string>)
    requires IsToken(w) && forall v | v in ws :: IsToken(v)
    ensures WordsOf(w + Joined(ws)) == [w] + ws
  {
    JoinedWords(ws);
    ReadWordOf(w, Joined(ws));
  }

  // The number a word begins with; 0 if it does not begin with one.
  function Leading(w: string): nat {
    NatValue(w[..DigitLength(w)])
  }

  lemma {:induction false} DigitsOfWord(t: string)
    ensures DigitLength(t) <= WordLength(t) && DigitLength(t[..WordLength(t)]) == DigitLength(t)
  {
    if t != "" && !IsSpace(t[0]) {
      var rest := t[1..];
      DigitsOfWord(rest);
      assert t[..WordLength(t)][1..] == rest[..WordLength(rest)];
    }
  }

  lemma {:induction false} AllDigits(w: string)
    ensures DigitLength(w) == |w| <==> IsDigits(w)
    ensures DigitLength(w) > 0 <==> w != "" && IsDigit(w[0])
  {
    if w != "" && IsDigit(w[0]) {
      AllDigits(w[1..]);
      assert IsDigits(w[1..]) ==> forall i | 0 < i < |w| :: w[i] == w[1..][i - 1];
    }
  }

  // Reading a number takes the digits the next word begins with, and fails if it begins with none.
  lemma NumberRead(s: string)
    ensures var r, ws := ReadNat(s), WordsOf(s);
      if ws != [] && IsDigit(ws[0][0])
      then r.Got? && r.value == Leading(ws[0]) && (IsNumber(ws[0]) ==> r.rest == ReadWord(s).rest)
      else r.Fail?
    ensures var r, ws := ReadNat(s), WordsOf(s);
      ws != [] && IsDigit(ws[0][0]) && !IsNumber(ws[0]) ==> r.Got? && ReadNat(r.rest).Fail?
  {
    var t := SkipSpace(s);
    DigitsOfWord(t);
    if t != "" {
      AllDigits(t[..WordLength(t)]);
      assert t[..WordLength(t)][..DigitLength(t)] == t[..DigitLength(t)];
      var more := t[DigitLength(t)..];
      if 0 < DigitLength(t) < WordLength(t) {
        assert more[0] == t[..WordLength(t)][DigitLength(t)] && !IsSpace(more[0]);
        assert SkipSpace(more) == more && DigitLength(more) == 0;
      }
    } else {
      assert DigitLength("") == 0;
    }
  }

  lemma NumberIsLeading(w: string)
    requires IsNumber(w)
    ensures Leading(w) == NatValue(w) && IsDigit(w[0])
  {
    AllDigits(w);
    assert w[..|w|] == w;
  }

  // Where the next word is clear, it is taken as a whole, or not at all.
  lemma NumberWord(s: string)
    requires ClearAt(WordsOf(s), 0)
    ensures ReadNat(s) == if WordsOf(s) != [] && IsNumber(WordsOf(s)[0])
                          then Got(NatValue(WordsOf(s)[0]), ReadWord(s).rest)
                          else Fail
  {
    NumberRead(s);
    if WordsOf(s) != [] && IsNumber(WordsOf(s)[0]) {
      NumberIsLeading(WordsOf(s)[0]);
    }
  }

  lemma NextWord(s: string)
    ensures ReadWord(s).Got? <==> WordsOf(s) != []
    ensures ReadWord(s).Got? ==> ReadWord(s).value == WordsOf(s)[0] && WordsOf(ReadWord(s).rest) == WordsOf(s)[1..]
  {
  }
}
