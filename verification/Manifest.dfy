/** src/core/manifest/manifest.cpp: the text of a manifest, printed and parsed. */
module Manifest {
  import opened Basics
  import opened Text

  datatype Manifest = Manifest(
    originalName: string, originalSize: nat, chunkSize: nat, chunks: seq<string>,
    encrypted: bool, encAlgo: string, keyEncAlgo: string, encryptedKeyHex: string)

  /** Printer **/

  // One "label value" line and what follows it.
  function Field(name: string, value: string, rest: string): string {
    name + (" " + (value + ("\n" + rest)))
  }

  function IdLines(ids: seq<string>, rest: string): string {
    if ids == [] then rest else ids[0] + ("\n" + IdLines(ids[1..], rest))
  }

  function EncryptionLines(m: Manifest): string {
    if m.encrypted then Field("encrypted", "1", KeyLines(m)) else Field("encrypted", "0", "")
  }

  function KeyLines(m: Manifest): string {
    Field("enc_algo", m.encAlgo, Field("key_enc_algo", m.keyEncAlgo, Field("enc_key", m.encryptedKeyHex, "")))
  }

  function Serialize(m: Manifest): string {
    Field("filename", m.originalName,
      Field("size", NatText(m.originalSize),
        Field("chunk_size", NatText(m.chunkSize),
          Field("chunks", NatText(|m.chunks|),
            IdLines(m.chunks, EncryptionLines(m))))))
  }

  // Writing one more line moves it from what is still to come to what has been written.
  lemma WriteField(out: string, name: string, value: string, rest: string)
    ensures out + Field(name, value, rest) == (out + (name + (" " + (value + "\n")))) + rest
  {
    Assoc(value, "\n", rest);
    Assoc(" ", value + "\n", rest);
    Assoc(name, " " + (value + "\n"), rest);
    Assoc(out, name + (" " + (value + "\n")), rest);
  }

  lemma WriteId(out: string, ids: seq<string>, rest: string)
    requires ids != []
    ensures out + IdLines(ids, rest) == (out + (ids[0] + "\n")) + IdLines(ids[1..], rest)
  {
    Assoc(ids[0], "\n", IdLines(ids[1..], rest));
    Assoc(out, ids[0] + "\n", IdLines(ids[1..], rest));
  }

  // serializeManifest, appending to a stream; "rest" is what is still to come.
  method SerializeManifest(m: Manifest) returns (out: string)
    ensures out == Serialize(m)
  {
    ghost var rest := IdLines(m.chunks, EncryptionLines(m));
    ghost var rest1 := Field("chunks", NatText(|m.chunks|), rest);
    ghost var rest2 := Field("chunk_size", NatText(m.chunkSize), rest1);
    ghost var rest3 := Field("size", NatText(m.originalSize), rest2);
    out := "";
    assert Serialize(m) == out + Serialize(m);
    WriteField(out, "filename", m.originalName, rest3);
    out := out + ("filename" + (" " + (m.originalName + "\n")));
    WriteField(out, "size", NatText(m.originalSize), rest2);
    out := out + ("size" + (" " + (NatText(m.originalSize) + "\n")));
    WriteField(out, "chunk_size", NatText(m.chunkSize), rest1);
    out := out + ("chunk_size" + (" " + (NatText(m.chunkSize) + "\n")));
    WriteField(out, "chunks", NatText(|m.chunks|), rest);
    out := out + ("chunks" + (" " + (NatText(|m.chunks|) + "\n")));
    assert m.chunks[0..] == m.chunks;
    for i := 0 to |m.chunks|
      invariant Serialize(m) == out + IdLines(m.chunks[i..], EncryptionLines(m))
    {
      WriteId(out, m.chunks[i..], EncryptionLines(m));
      assert m.chunks[i..][1..] == m.chunks[i + 1..];
      out := out + (m.chunks[i] + "\n");
    }
    assert IdLines(m.chunks[|m.chunks|..], EncryptionLines(m)) == EncryptionLines(m);
    if m.encrypted {
      rest1 := Field("enc_key", m.encryptedKeyHex, "");
      rest2 := Field("key_enc_algo", m.keyEncAlgo, rest1);
      WriteField(out, "encrypted", "1", Field("enc_algo", m.encAlgo, rest2));
      out := out + ("encrypted" + (" " + ("1" + "\n")));
      WriteField(out, "enc_algo", m.encAlgo, rest2);
      out := out + ("enc_algo" + (" " + (m.encAlgo + "\n")));
      WriteField(out, "key_enc_algo", m.keyEncAlgo, rest1);
      out := out + ("key_enc_algo" + (" " + (m.keyEncAlgo + "\n")));
      WriteField(out, "enc_key", m.encryptedKeyHex, "");
      out := out + ("enc_key" + (" " + (m.encryptedKeyHex + "\n")));
    } else {
      WriteField(out, "encrypted", "0", "");
      out := out + ("encrypted" + (" " + ("0" + "\n")));
    }
    assert out + "" == out;
  }

  /** Parser **/

  // in >> label >> std::string, and the check of the label.
  function ReadField(s: string, name: string): (r: Extracted<string>)
    ensures r.Got? ==> IsToken(r.value)
  {
    match ReadWord(s)
    case Fail => Fail
    case Got(w, rest) =>
      match ReadWord(rest)
      case Fail => Fail
      case Got(value, rest) => if w == name then Got(value, rest) else Fail
  }

  // in >> label >> size_t, and the check of the label.
  function ReadNumber(s: string, name: string): Extracted<nat> {
    match ReadWord(s)
    case Fail => Fail
    case Got(w, rest) =>
      match ReadNat(rest)
      case Fail => Fail
      case Got(value, rest) => if w == name then Got(value, rest) else Fail
  }

  function ReadIds(s: string, n: nat): (r: Extracted<seq<string>>)
    ensures r.Got? ==> |r.value| == n && forall id | id in r.value :: IsToken(id)
    decreases n
  {
    if n == 0 then Got([], s)
    else
      match ReadWord(s)
      case Fail => Fail
      case Got(id, rest) =>
        match ReadIds(rest, n - 1)
        case Fail => Fail
        case Got(ids, rest) => Got([id] + ids, rest)
  }

  function ParseHeader(text: string): Extracted<Manifest> {
    match ReadField(text, "filename")
    case Fail => Fail
    case Got(name, rest) => ParseSizes(name, rest)
  }

  function ParseSizes(name: string, s: string): Extracted<Manifest> {
    match ReadNumber(s, "size")
    case Fail => Fail
    case Got(size, rest) =>
      match ReadNumber(rest, "chunk_size")
      case Fail => Fail
      case Got(chunkSize, rest) => ParseChunks(name, size, chunkSize, rest)
  }

  function ParseChunks(name: string, size: nat, chunkSize: nat, s: string): Extracted<Manifest> {
    match ReadNumber(s, "chunks")
    case Fail => Fail
    case Got(count, rest) =>
      match ReadIds(rest, count)
      case Fail => Fail
      case Got(ids, rest) => Got(Manifest(name, size, chunkSize, ids, false, "", "", ""), rest)
  }

  // The encryption lines: anything but "encrypted 1" means not encrypted.
  function ParseEncryption(m: Manifest, s: string): Option<Manifest> {
    match ReadNumber(s, "encrypted")
    case Fail => Some(m)
    case Got(flag, rest) => if flag != 1 then Some(m) else ParseKey(m, rest)
  }

  function ParseKey(m: Manifest, s: string): Option<Manifest> {
    match ReadField(s, "enc_algo")
    case Fail => None
    case Got(algo, rest) =>
      match ReadField(rest, "key_enc_algo")
      case Fail => None
      case Got(keyAlgo, rest) =>
        match ReadField(rest, "enc_key")
        case Fail => None
        case Got(key, rest) =>
          Some(m.(encrypted := true, encAlgo := algo, keyEncAlgo := keyAlgo, encryptedKeyHex := key))
  }

  // None stands for the runtime_error.
  function Parse(text: string): Option<Manifest> {
    match ParseHeader(text)
    case Fail => None
    case Got(m, rest) => ParseEncryption(m, rest)
  }

  // The loop over chunk ids, pushing them onto a vector.
  method ParseIds(s: string, count: nat) returns (r: Extracted<seq<string>>)
    ensures r == ReadIds(s, count)
  {
    var ids, rest := [], s;
    assert ReadIds(s, count).Got? ==> [] + ReadIds(s, count).value == ReadIds(s, count).value;
    for i := 0 to count
      invariant ReadIds(s, count)
             == match ReadIds(rest, count - i)
                case Fail => Fail
                case Got(more, after) => Got(ids + more, after)
    {
      var id := ReadWord(rest);
      if id.Fail? { return Fail; }
      ghost var tail := ReadIds(id.rest, count - i - 1);
      assert tail.Got? ==> ids + ([id.value] + tail.value) == (ids + [id.value]) + tail.value;
      ids := ids + [id.value];
      rest := id.rest;
    }
    assert ids + [] == ids;
    r := Got(ids, rest);
  }

  // parseManifestText, consuming a stream and filling in the fields.
  method ParseManifestText(text: string) returns (r: Option<Manifest>)
    ensures r == Parse(text)
  {
    var m := Manifest("", 0, 0, [], false, "", "", "");
    var name := ReadField(text, "filename");
    if name.Fail? { return None; }
    m := m.(originalName := name.value);
    var size := ReadNumber(name.rest, "size");
    if size.Fail? { return None; }
    m := m.(originalSize := size.value);
    var chunkSize := ReadNumber(size.rest, "chunk_size");
    if chunkSize.Fail? { return None; }
    m := m.(chunkSize := chunkSize.value);
    var count := ReadNumber(chunkSize.rest, "chunks");
    if count.Fail? { return None; }
    var ids := ParseIds(count.rest, count.value);
    if ids.Fail? { return None; }
    m := m.(chunks := ids.value);
    var rest := ids.rest;
    assert ParseHeader(text) == Got(m, rest);
    var flag := ReadNumber(rest, "encrypted");
    if flag.Got? && flag.value == 1 {
      var algo := ReadField(flag.rest, "enc_algo");
      if algo.Fail? { return None; }
      var keyAlgo := ReadField(algo.rest, "key_enc_algo");
      if keyAlgo.Fail? { return None; }
      var key := ReadField(keyAlgo.rest, "enc_key");
      if key.Fail? { return None; }
      m := m.(encrypted := true, encAlgo := algo.value, keyEncAlgo := keyAlgo.value, encryptedKeyHex := key.value);
    }
    r := Some(m);
  }

  /** Round trips **/

  // The manifests whose text can be read back.
  ghost predicate Printable(m: Manifest) {
    && IsToken(m.originalName)
    && (forall id | id in m.chunks :: IsToken(id))
    && (if m.encrypted then IsToken(m.encAlgo) && IsToken(m.keyEncAlgo) && IsToken(m.encryptedKeyHex)
        else m.encAlgo == "" && m.keyEncAlgo == "" && m.encryptedKeyHex == "")
  }

  predicate LineStart(pre: string) {
    pre == "" || pre == "\n"
  }

  lemma ReadName(pre: string, name: string, rest: string)
    requires LineStart(pre) && IsToken(name) && Ends(rest)
    ensures ReadWord(pre + (name + rest)) == Got(name, rest)
  {
    ReadWordOf(name, rest);
    if pre == "" {
      assert "" + (name + rest) == name + rest;
    }
  }

  lemma ReadFieldOf(pre: string, name: string, value: string, rest: string)
    requires LineStart(pre) && IsToken(name) && IsToken(value)
    ensures ReadField(pre + Field(name, value, rest), name) == Got(value, "\n" + rest)
  {
    var r := "\n" + rest;
    var v := " " + (value + r);
    ReadName(pre, name, v);
    ReadWordOf(value, r);
    assert ReadWord(v) == Got(value, r);
  }

  lemma ReadNumberOf(pre: string, name: string, n: nat, rest: string)
    requires LineStart(pre) && IsToken(name)
    ensures ReadNumber(pre + Field(name, NatText(n), rest), name) == Got(n, "\n" + rest)
  {
    var r := "\n" + rest;
    var v := " " + (NatText(n) + r);
    ReadName(pre, name, v);
    ReadNatOf(n, r);
    assert ReadNat(v) == Got(n, r);
  }

  lemma {:induction false} ReadIdsOf(ids: seq<string>, rest: string)
    requires forall id | id in ids :: IsToken(id)
    ensures ReadIds("\n" + IdLines(ids, rest), |ids|) == Got(ids, "\n" + rest)
  {
    if ids != [] {
      var tail := "\n" + IdLines(ids[1..], rest);
      ReadWordOf(ids[0], tail);
      assert ReadWord("\n" + (ids[0] + tail)) == Got(ids[0], tail);
      ReadIdsOf(ids[1..], rest);
      assert [ids[0]] + ids[1..] == ids;
    }
  }

  lemma ParseChunksOf(m: Manifest, rest: string)
    requires Printable(m)
    ensures ParseChunks(m.originalName, m.originalSize, m.chunkSize,
                        "\n" + Field("chunks", NatText(|m.chunks|), IdLines(m.chunks, rest)))
         == Got(Manifest(m.originalName, m.originalSize, m.chunkSize, m.chunks, false, "", "", ""), "\n" + rest)
  {
    ReadNumberOf("\n", "chunks", |m.chunks|, IdLines(m.chunks, rest));
    ReadIdsOf(m.chunks, rest);
  }

  lemma ParseSizesOf(m: Manifest, rest: string)
    ensures ParseSizes(m.originalName,
              "\n" + Field("size", NatText(m.originalSize), Field("chunk_size", NatText(m.chunkSize), rest)))
         == ParseChunks(m.originalName, m.originalSize, m.chunkSize, "\n" + rest)
  {
    ReadNumberOf("\n", "size", m.originalSize, Field("chunk_size", NatText(m.chunkSize), rest));
    ReadNumberOf("\n", "chunk_size", m.chunkSize, rest);
  }

  lemma ParseHeaderOf(m: Manifest)
    requires Printable(m)
    ensures ParseHeader(Serialize(m))
         == Got(Manifest(m.originalName, m.originalSize, m.chunkSize, m.chunks, false, "", "", ""),
                "\n" + EncryptionLines(m))
  {
    var rest1 := Field("chunks", NatText(|m.chunks|), IdLines(m.chunks, EncryptionLines(m)));
    var rest3 := Field("size", NatText(m.originalSize), Field("chunk_size", NatText(m.chunkSize), rest1));
    ReadFieldOf("", "filename", m.originalName, rest3);
    assert "" + Serialize(m) == Serialize(m);
    ParseSizesOf(m, rest1);
    ParseChunksOf(m, EncryptionLines(m));
  }

  lemma ParseKeyOf(m: Manifest, plain: Manifest)
    requires Printable(m) && m.encrypted
    requires plain == m.(encrypted := false, encAlgo := "", keyEncAlgo := "", encryptedKeyHex := "")
    ensures ParseKey(plain, "\n" + KeyLines(m)) == Some(m)
  {
    var rest1 := Field("enc_key", m.encryptedKeyHex, "");
    var rest2 := Field("key_enc_algo", m.keyEncAlgo, rest1);
    ReadFieldOf("\n", "enc_algo", m.encAlgo, rest2);
    ReadFieldOf("\n", "key_enc_algo", m.keyEncAlgo, rest1);
    ReadFieldOf("\n", "enc_key", m.encryptedKeyHex, "");
  }

  lemma ParseEncryptionOf(m: Manifest)
    requires Printable(m)
    ensures ParseEncryption(Manifest(m.originalName, m.originalSize, m.chunkSize, m.chunks, false, "", "", ""),
                            "\n" + EncryptionLines(m)) == Some(m)
  {
    if m.encrypted {
      assert NatText(1) == "1";
      ReadNumberOf("\n", "encrypted", 1, KeyLines(m));
      ParseKeyOf(m, m.(encrypted := false, encAlgo := "", keyEncAlgo := "", encryptedKeyHex := ""));
    } else {
      assert NatText(0) == "0";
      ReadNumberOf("\n", "encrypted", 0, "");
    }
  }

  // Whatever parses is printable.
  lemma ParsedIsPrintable(text: string)
    ensures Parse(text).Some? ==> Printable(Parse(text).value)
  {
  }

  /** A manifest comes back from its text exactly if its name and ids are non-empty and free of white space. **/
  lemma RoundTripIff(m: Manifest)
    ensures Parse(Serialize(m)) == Some(m) <==> Printable(m)
  {
    if Printable(m) {
      ParseHeaderOf(m);
      ParseEncryptionOf(m);
    }
    ParsedIsPrintable(Serialize(m));
  }

  lemma SerializeIsInjective(m: Manifest, m': Manifest)
    requires Printable(m) && Printable(m') && Serialize(m) == Serialize(m')
    ensures m == m'
  {
    RoundTripIff(m);
    RoundTripIff(m');
  }

  // Any text that parses re-serialises to a text that parses to the same manifest.
  lemma Normalises(text: string)
    requires Parse(text).Some?
    ensures Parse(Serialize(Parse(text).value)) == Parse(text)
  {
    ParsedIsPrintable(text);
    RoundTripIff(Parse(text).value);
  }
}
