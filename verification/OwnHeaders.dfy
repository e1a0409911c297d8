/**
 * File names of several words: parsing goes on inside the name, which may spell a manifest of its own, or the beginning
 * of one that the lines after it then complete in a way that gives itself away.
 */
module OwnHeaders {
  import opened Basics
  import opened Text
  import opened Manifest
  import opened FileNames

  // The manifest the name spells by itself, if it does.
  function OwnManifest(name: string): Option<Manifest> {
    Parse("filename " + name)
  }

  // The word at the start of the next line has ended up as a chunk id or as the key.
  predicate Spilled(m: Manifest) {
    "size" in m.chunks || (m.encrypted && m.encryptedKeyHex == "size")
  }

  // A file name is followed by a line that says "size" and a number.
  predicate SizeLine(tail: string) {
    && Ends(tail)
    && ReadWord(tail).Got? && ReadWord(tail).value == "size" && ReadNat(tail) == Fail
    && ReadWord(ReadWord(tail).rest).Got? && IsDigits(ReadWord(ReadWord(tail).rest).value)
  }

  /** Extraction from a piece in front of that line **/

  lemma ReadOn(s: string, tail: string)
    requires Ends(tail)
    ensures ReadWord(s + tail) == match ReadWord(s)
                                  case Fail => ReadWord(tail)
                                  case Got(w, rest) => Got(w, rest + tail)
  {
    if ReadWord(s).Got? {
      ReadWithin(s, tail);
    } else {
      ReadPastSpace(s, tail);
    }
  }

  lemma {:induction false} DigitLengthOver(s: string, tail: string)
    requires Ends(tail)
    ensures DigitLength(s + tail) == DigitLength(s)
  {
    if s == "" {
      assert s + tail == tail;
    } else {
      assert (s + tail)[0] == s[0] && (s + tail)[1..] == s[1..] + tail;
      if IsDigit(s[0]) {
        DigitLengthOver(s[1..], tail);
      }
    }
  }

  lemma ReadNatOn(s: string, tail: string)
    requires Ends(tail) && ReadNat(tail) == Fail
    ensures ReadNat(s + tail) == match ReadNat(s)
                                 case Fail => Fail
                                 case Got(n, rest) => Got(n, rest + tail)
  {
    SkipSpaceOver(s, tail);
    var t := SkipSpace(s);
    if t != "" {
      DigitLengthOver(t, tail);
      var n := DigitLength(t);
      assert (t + tail)[..n] == t[..n] && (t + tail)[n..] == t[n..] + tail;
    } else {
      assert DigitLength("") == 0;
    }
  }

  // A label other than "size" with its number is read within the piece, or not at all.
  lemma ReadNumberOn(s: string, tail: string, field: string)
    requires SizeLine(tail) && (field != "size" || ReadWord(s).Got?)
    ensures ReadNumber(s + tail, field) == match ReadNumber(s, field)
                                           case Fail => Fail
                                           case Got(n, rest) => Got(n, rest + tail)
  {
    ReadOn(s, tail);
    if ReadWord(s).Got? {
      ReadNatOn(ReadWord(s).rest, tail);
    }
  }

  // A label with its word is read within the piece, or not at all, or takes the next line's label for the word.
  lemma ReadFieldOn(s: string, tail: string, field: string)
    requires SizeLine(tail) && field != "size"
    ensures var r := ReadField(s + tail, field);
      match ReadField(s, field)
      case Fail => r.Fail? || r == Got("size", ReadWord(tail).rest)
      case Got(w, rest) => r == Got(w, rest + tail)
  {
    ReadOn(s, tail);
    if ReadWord(s).Got? {
      ReadOn(ReadWord(s).rest, tail);
    }
  }

  // Ids are read within the piece, or not at all, or "size" is one of them.
  lemma {:induction false} ReadIdsOn(s: string, tail: string, n: nat)
    requires SizeLine(tail)
    ensures var r := ReadIds(s + tail, n);
      match ReadIds(s, n)
      case Fail => r.Got? ==> "size" in r.value
      case Got(ids, rest) => r == Got(ids, rest + tail)
    decreases n
  {
    if n > 0 {
      ReadOn(s, tail);
      if ReadWord(s).Got? {
        ReadIdsOn(ReadWord(s).rest, tail, n - 1);
      }
    }
  }

  /** The header **/

  lemma ParseChunksOn(name: string, size: nat, chunkSize: nat, s: string, tail: string)
    requires SizeLine(tail)
    ensures var r := ParseChunks(name, size, chunkSize, s + tail);
      match ParseChunks(name, size, chunkSize, s)
      case Fail => r.Got? ==> "size" in r.value.chunks
      case Got(m, rest) => r == Got(m, rest + tail)
  {
    ReadNumberOn(s, tail, "chunks");
    var count := ReadNumber(s, "chunks");
    if count.Got? {
      ReadIdsOn(count.rest, tail, count.value);
    }
  }

  lemma ParseSizesOn(name: string, s: string, tail: string)
    requires SizeLine(tail) && ReadWord(s).Got?
    ensures var r := ParseSizes(name, s + tail);
      match ParseSizes(name, s)
      case Fail => r.Got? ==> "size" in r.value.chunks
      case Got(m, rest) => r == Got(m, rest + tail)
  {
    ReadNumberOn(s, tail, "size");
    var size := ReadNumber(s, "size");
    if size.Got? {
      ReadNumberOn(size.rest, tail, "chunk_size");
      var chunkSize := ReadNumber(size.rest, "chunk_size");
      if chunkSize.Got? {
        ParseChunksOn(name, size.value, chunkSize.value, chunkSize.rest, tail);
      }
    }
  }

  /** The encryption lines **/

  // After the next line's label there is a number, which is no label.
  lemma NothingAfterSize(tail: string, field: string)
    requires SizeLine(tail) && field in {"key_enc_algo", "enc_key"}
    ensures ReadField(ReadWord(tail).rest, field) == Fail
  {
    assert !IsDigit('k') && !IsDigit('e');
    assert "key_enc_algo"[0] == 'k' && "enc_key"[0] == 'e';
  }

  lemma ParseKeyOn(m: Manifest, s: string, tail: string)
    requires SizeLine(tail)
    ensures var r := ParseKey(m, s + tail);
      if ParseKey(m, s).Some? then r == ParseKey(m, s)
      else r.Some? ==> r.value.encrypted && r.value.encryptedKeyHex == "size"
  {
    NothingAfterSize(tail, "key_enc_algo");
    NothingAfterSize(tail, "enc_key");
    ReadFieldOn(s, tail, "enc_algo");
    var algo := ReadField(s, "enc_algo");
    if algo.Got? {
      ReadFieldOn(algo.rest, tail, "key_enc_algo");
      var keyAlgo := ReadField(algo.rest, "key_enc_algo");
      if keyAlgo.Got? {
        ReadFieldOn(keyAlgo.rest, tail, "enc_key");
      }
    }
  }

  lemma ParseEncryptionOn(m: Manifest, s: string, tail: string)
    requires SizeLine(tail)
    ensures var r := ParseEncryption(m, s + tail);
      if ParseEncryption(m, s).Some? then r == ParseEncryption(m, s)
      else r.Some? ==> r.value.encrypted && r.value.encryptedKeyHex == "size"
  {
    ReadNumberOn(s, tail, "encrypted");
    var flag := ReadNumber(s, "encrypted");
    if flag.Got? {
      ParseKeyOn(m, flag.rest, tail);
    }
  }

  lemma EncryptionKeepsChunks(m: Manifest, s: string)
    ensures var r := ParseEncryption(m, s); r.Some? ==> r.value.chunks == m.chunks
  {
  }

  /** The whole text **/

  lemma NextLine(m: Manifest)
    ensures SizeLine("\n" + AfterName(m))
  {
    var more := Field("chunk_size", NatText(m.chunkSize),
                  Field("chunks", NatText(|m.chunks|), IdLines(m.chunks, EncryptionLines(m))));
    assert AfterName(m) == Field("size", NatText(m.originalSize), more);
    var tail := "\n" + AfterName(m);
    ReadName("\n", "size", " " + (NatText(m.originalSize) + ("\n" + more)));
    ReadPastSpace(" ", NatText(m.originalSize) + ("\n" + more));
    ReadWordOf(NatText(m.originalSize), "\n" + more);
    assert SkipSpace(tail) == AfterName(m) && AfterName(m)[0] == 's';
    assert DigitLength(AfterName(m)) == 0;
  }

  lemma OwnHeader(name: string)
    requires ReadWord(name).Got?
    ensures OwnManifest(name)
         == match ParseSizes(ReadWord(name).value, ReadWord(name).rest)
            case Fail => None
            case Got(m, rest) => ParseEncryption(m, rest)
  {
    assert "filename " + name == "filename" + (" " + name);
    ReadWordOf("filename", " " + name);
    ReadPastSpace(" ", name);
  }

  lemma TextHeader(m: Manifest)
    requires ReadWord(m.originalName).Got?
    ensures Parse(Serialize(m))
         == match ParseSizes(ReadWord(m.originalName).value, ReadWord(m.originalName).rest + ("\n" + AfterName(m)))
            case Fail => None
            case Got(m, rest) => ParseEncryption(m, rest)
  {
    assert Serialize(m) == Field("filename", m.originalName, AfterName(m));
    ReadFileName(m.originalName, AfterName(m));
  }

  /**
   * A manifest whose file name is not one word is read as the one the name spells by itself. If the name spells none,
   * the text does not parse, or only by taking the next line's label for a chunk id or for the key.
   */
  lemma ReadsAsItsName(m: Manifest)
    requires !OneWord(m.originalName)
    ensures var r := Parse(Serialize(m)); var own := OwnManifest(m.originalName);
      if own.Some? then r == own else r.Some? ==> Spilled(r.value)
  {
    var name := m.originalName;
    if ReadWord(name).Got? {
      var w, rest, tail := ReadWord(name).value, ReadWord(name).rest, "\n" + AfterName(m);
      NextLine(m);
      OwnHeader(name);
      TextHeader(m);
      ParseSizesOn(w, rest, tail);
      var own := ParseSizes(w, rest);
      if own.Got? {
        ParseEncryptionOn(own.value, own.rest, tail);
      } else {
        var r := ParseSizes(w, rest + tail);
        if r.Got? {
          EncryptionKeepsChunks(r.value, r.rest);
        }
      }
    } else {
      UnreadableNameIsRefused(m);
      BlankSpellsNothing(name);
    }
  }

  lemma BlankSpellsNothing(name: string)
    requires ReadWord(name).Fail?
    ensures OwnManifest(name) == None
  {
    assert "filename " + name == "filename" + (" " + name);
    ReadWordOf("filename", " " + name);
    ReadPastSpace(" ", name);
  }

  /** A name that spells the manifest of an empty file **/

  function NumberPart(field: string, n: nat, rest: string): string {
    " " + (field + (" " + (NatText(n) + rest)))
  }

  lemma ReadNumberPart(field: string, n: nat, rest: string)
    requires IsToken(field) && Ends(rest)
    ensures ReadNumber(NumberPart(field, n, rest), field) == Got(n, rest)
  {
    ReadWordOf(field, " " + (NatText(n) + rest));
    ReadNatOf(n, rest);
  }

  function HeaderWords(size: nat, chunkSize: nat, count: nat): string {
    NumberPart("size", size, NumberPart("chunk_size", chunkSize, NumberPart("chunks", count, "")))
  }

  lemma ReadHeaderWords(word: string, size: nat, chunkSize: nat)
    ensures ParseSizes(word, HeaderWords(size, chunkSize, 0))
         == Got(Manifest(word, size, chunkSize, [], false, "", "", ""), "")
  {
    var t2 := NumberPart("chunks", 0, "");
    var t1 := NumberPart("chunk_size", chunkSize, t2);
    ReadNumberPart("size", size, t1);
    ReadNumberPart("chunk_size", chunkSize, t2);
    ReadNumberPart("chunks", 0, "");
  }

  lemma WordThenRest(word: string, rest: string)
    requires IsToken(word) && Ends(rest) && ReadWord(rest).Got?
    ensures !OneWord(word + rest)
    ensures OwnManifest(word + rest)
         == match ParseSizes(word, rest)
            case Fail => None
            case Got(m, more) => ParseEncryption(m, more)
  {
    ReadWordOf(word, rest);
    OwnHeader(word + rest);
  }

  lemma HeaderWordsSpell(word: string, size: nat, chunkSize: nat)
    requires IsToken(word)
    ensures var name := word + HeaderWords(size, chunkSize, 0);
      !OneWord(name) && OwnManifest(name) == Some(Manifest(word, size, chunkSize, [], false, "", "", ""))
  {
    ReadHeaderWords(word, size, chunkSize);
    ReadNumberPart("size", size, NumberPart("chunk_size", chunkSize, NumberPart("chunks", 0, "")));
    WordThenRest(word, HeaderWords(size, chunkSize, 0));
    assert ReadNumber("", "encrypted").Fail?;
  }

  lemma NumberPartText(field: string, n: nat, digits: string, rest: string)
    requires NatText(n) == digits
    ensures NumberPart(field, n, rest) == ((" " + field) + (" " + digits)) + rest
  {
  }

  lemma LastWordsText()
    ensures NumberPart("chunk_size", 1, NumberPart("chunks", 0, "")) == " chunk_size 1 chunks 0"
  {
    assert NumberPart("chunks", 0, "") == " chunks 0" by {
      NumberPartText("chunks", 0, "0", "");
    }
    NumberPartText("chunk_size", 1, "1", " chunks 0");
  }

  lemma HeaderWordsText()
    ensures HeaderWords(0, 1, 0) == " size 0 chunk_size 1 chunks 0"
  {
    LastWordsText();
    NumberPartText("size", 0, "0", " chunk_size 1 chunks 0");
  }

  function EmptyingName(word: string): string {
    word + " size 0 chunk_size 1 chunks 0"
  }

  lemma EmptyingNameSpells(word: string)
    requires IsToken(word)
    ensures !OneWord(EmptyingName(word))
    ensures OwnManifest(EmptyingName(word)) == Some(Manifest(word, 0, 1, [], false, "", "", ""))
  {
    HeaderWordsText();
    HeaderWordsSpell(word, 0, 1);
  }
}
