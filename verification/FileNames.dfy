/** What becomes of a manifest whose file name is not a single word. **/
module FileNames {
  import opened Basics
  import opened Text
  import opened Manifest

  // One word, with or without white space around it.
  predicate OneWord(name: string) {
    ReadWord(name).Got? && ReadWord(ReadWord(name).rest).Fail?
  }

  function Word(name: string): string
    requires OneWord(name)
  {
    ReadWord(name).value
  }

  // Nothing but white space, or words of which the second is not the label of the next line.
  predicate Unreadable(name: string) {
    match ReadWord(name)
    case Fail => true
    case Got(_, rest) => ReadWord(rest).Got? && ReadWord(rest).value != "size"
  }

  /** Extraction from two pieces **/

  lemma {:induction false} SkipSpaceOver(s: string, rest: string)
    ensures SkipSpace(s + rest) == if SkipSpace(s) != "" then SkipSpace(s) + rest else SkipSpace(rest)
  {
    if s == "" {
      assert s + rest == rest;
    } else if IsSpace(s[0]) {
      assert (s + rest)[1..] == s[1..] + rest;
      SkipSpaceOver(s[1..], rest);
    }
  }

  // A piece without words makes no difference in front.
  lemma ReadPastSpace(s: string, rest: string)
    requires ReadWord(s).Fail?
    ensures ReadWord(s + rest) == ReadWord(rest)
  {
    SkipSpaceOver(s, rest);
  }

  lemma ReadWithin(s: string, rest: string)
    requires ReadWord(s).Got? && Ends(rest)
    ensures ReadWord(s + rest) == Got(ReadWord(s).value, ReadWord(s).rest + rest)
  {
    SkipSpaceOver(s, rest);
    var t := SkipSpace(s);
    var n := WordLength(t);
    assert t == t[..n] + t[n..];
    Assoc(t[..n], t[n..], rest);
    WordLengthOf(t[..n], t[n..] + rest);
    assert (t + rest)[..n] == t[..n] && (t + rest)[n..] == t[n..] + rest;
  }

  lemma ReadFileName(name: string, rest: string)
    requires ReadWord(name).Got?
    ensures ReadField(Field("filename", name, rest), "filename")
         == Got(ReadWord(name).value, ReadWord(name).rest + ("\n" + rest))
  {
    ReadAfterLabel(name, rest);
    ReadPastSpace(" ", name + ("\n" + rest));
    ReadWithin(name, "\n" + rest);
  }

  lemma ReadAfterLabel(name: string, rest: string)
    ensures ReadWord(Field("filename", name, rest)) == Got("filename", " " + (name + ("\n" + rest)))
  {
    ReadWordOf("filename", " " + (name + ("\n" + rest)));
  }

  lemma ReadNumberPastSpace(s: string, rest: string, name: string)
    requires ReadWord(s).Fail?
    ensures ReadNumber(s + rest, name) == ReadNumber(rest, name)
  {
    ReadPastSpace(s, rest);
  }

  /** Manifests **/

  function Renamed(m: Manifest): Manifest
    requires OneWord(m.originalName)
  {
    m.(originalName := Word(m.originalName))
  }

  // What follows the file name in the text.
  function AfterName(m: Manifest): string {
    Field("size", NatText(m.originalSize),
      Field("chunk_size", NatText(m.chunkSize),
        Field("chunks", NatText(|m.chunks|), IdLines(m.chunks, EncryptionLines(m)))))
  }

  lemma PaddedHeader(m: Manifest)
    requires OneWord(m.originalName) && Printable(Renamed(m))
    ensures ParseHeader(Serialize(m))
         == Got(Manifest(Word(m.originalName), m.originalSize, m.chunkSize, m.chunks, false, "", "", ""),
                "\n" + EncryptionLines(m))
  {
    var r := Renamed(m);
    assert Serialize(m) == Field("filename", m.originalName, AfterName(m));
    ReadFileName(m.originalName, AfterName(m));
    ReadNumberPastSpace(ReadWord(m.originalName).rest, "\n" + AfterName(m), "size");
    assert AfterName(m) == AfterName(r) && EncryptionLines(m) == EncryptionLines(r);
    ParseSizesOf(r, Field("chunks", NatText(|m.chunks|), IdLines(m.chunks, EncryptionLines(m))));
    ParseChunksOf(r, EncryptionLines(m));
  }

  /** White space around the name is lost, and nothing else. **/
  lemma PaddedNameIsTrimmed(m: Manifest)
    requires OneWord(m.originalName) && Printable(Renamed(m))
    ensures Parse(Serialize(m)) == Some(Renamed(m))
  {
    PaddedHeader(m);
    ParseEncryptionOf(Renamed(m));
    assert EncryptionLines(m) == EncryptionLines(Renamed(m));
  }

  /** The text of a manifest with an unreadable name does not parse. **/
  lemma UnreadableNameIsRefused(m: Manifest)
    requires Unreadable(m.originalName)
    ensures Parse(Serialize(m)) == None
  {
    var rest := AfterName(m);
    assert Serialize(m) == Field("filename", m.originalName, rest);
    if ReadWord(m.originalName).Got? {
      ReadFileName(m.originalName, rest);
      ReadWithin(ReadWord(m.originalName).rest, "\n" + rest);
    } else {
      BlankName(m);
    }
  }

  // Without a word the first label of the next line is taken for the name, and its number for a label.
  lemma BlankName(m: Manifest)
    requires ReadWord(m.originalName).Fail?
    ensures ParseHeader(Serialize(m)).Fail?
  {
    var more := Field("chunk_size", NatText(m.chunkSize),
                  Field("chunks", NatText(|m.chunks|), IdLines(m.chunks, EncryptionLines(m))));
    assert AfterName(m) == Field("size", NatText(m.originalSize), more);
    assert Serialize(m) == Field("filename", m.originalName, AfterName(m));
    ReadLabelAsName(m.originalName, m.originalSize, more);
    NumberIsNoLabel(m.originalSize, more);
  }

  lemma ReadLabelAsName(name: string, n: nat, more: string)
    requires ReadWord(name).Fail?
    ensures ReadField(Field("filename", name, Field("size", NatText(n), more)), "filename")
         == Got("size", " " + (NatText(n) + ("\n" + more)))
  {
    var rest := Field("size", NatText(n), more);
    ReadAfterLabel(name, rest);
    ReadPastName(name, rest);
    ReadWordOf("size", " " + (NatText(n) + ("\n" + more)));
  }

  lemma ReadPastName(name: string, rest: string)
    requires ReadWord(name).Fail?
    ensures ReadWord(" " + (name + ("\n" + rest))) == ReadWord(rest)
  {
    ReadPastSpace(" ", name + ("\n" + rest));
    ReadPastSpace(name, "\n" + rest);
    ReadPastSpace("\n", rest);
  }

  lemma NumberIsNoLabel(n: nat, more: string)
    ensures ReadNumber(" " + (NatText(n) + ("\n" + more)), "size").Fail?
  {
    ReadPastSpace(" ", NatText(n) + ("\n" + more));
    ReadWordOf(NatText(n), "\n" + more);
    assert "size"[0] == 's' && !IsDigit('s');
    assert NatText(n) != "size";
  }
}
