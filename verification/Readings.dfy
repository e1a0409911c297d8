/**
 * What each of the texts is read as, word by word: manifests, metadata.db, requests to a peer, its replies, and lines
 * sent to the tracker. Where a number is expected formatted input takes the digits a word begins with and goes on in
 * the middle of it; in manifests and in metadata.db, where more is to follow, such words are left aside.
 */
module Readings {
  import opened Basics
  import opened Text
  import opened Words
  import opened Store
  import opened Manifest
  import opened MetadataDb
  import Framing
  import Tracker

  /** Manifests **/

  // Numbers are clear wherever one is expected.
  predicate ClearManifest(ws: seq<string>) {
    && ClearAt(ws, 3) && ClearAt(ws, 5) && ClearAt(ws, 7)
    && (|ws| > 7 && IsNumber(ws[7]) ==> ClearAt(ws, 9 + NatValue(ws[7])))
  }

  function ManifestIn(ws: seq<string>): Option<Manifest> {
    if |ws| < 2 || ws[0] != "filename" then None
    else
      match SizesIn(ws[1], ws[2..])
      case None => None
      case Some(m) => EncryptionIn(m, ws[8 + |m.chunks|..])
  }

  // What follows the name, up to the last id.
  function SizesIn(name: string, ws: seq<string>): Option<Manifest> {
    if |ws| < 6 || [ws[0], ws[2], ws[4]] != ["size", "chunk_size", "chunks"] then None
    else if !IsNumber(ws[1]) || !IsNumber(ws[3]) || !IsNumber(ws[5]) || |ws| < 6 + NatValue(ws[5]) then None
    else Some(Manifest(name, NatValue(ws[1]), NatValue(ws[3]), ws[6..6 + NatValue(ws[5])], false, "", "", ""))
  }

  function EncryptionIn(m: Manifest, ws: seq<string>): Option<Manifest> {
    if |ws| < 2 || ws[0] != "encrypted" || !IsNumber(ws[1]) || NatValue(ws[1]) != 1 then Some(m)
    else if |ws| < 8 || [ws[2], ws[4], ws[6]] != ["enc_algo", "key_enc_algo", "enc_key"] then None
    else Some(m.(encrypted := true, encAlgo := ws[3], keyEncAlgo := ws[5], encryptedKeyHex := ws[7]))
  }

  lemma FieldWords(s: string, name: string)
    ensures var r, ws := ReadField(s, name), WordsOf(s);
      if |ws| >= 2 && ws[0] == name then r.Got? && r.value == ws[1] && WordsOf(r.rest) == ws[2..] else r.Fail?
  {
    NextWord(s);
    if ReadWord(s).Got? {
      NextWord(ReadWord(s).rest);
    }
  }

  lemma NumberWords(s: string, name: string)
    requires ClearAt(WordsOf(s), 1)
    ensures var r, ws := ReadNumber(s, name), WordsOf(s);
      if |ws| >= 2 && ws[0] == name && IsNumber(ws[1])
      then r.Got? && r.value == NatValue(ws[1]) && WordsOf(r.rest) == ws[2..]
      else r.Fail?
  {
    NextWord(s);
    if ReadWord(s).Got? {
      NextWord(ReadWord(s).rest);
      NumberWord(ReadWord(s).rest);
    }
  }

  lemma {:induction false} IdWords(s: string, n: nat)
    ensures var r, ws := ReadIds(s, n), WordsOf(s);
      if |ws| >= n then r.Got? && r.value == ws[..n] && WordsOf(r.rest) == ws[n..] else r.Fail?
    decreases n
  {
    if n > 0 {
      NextWord(s);
      if ReadWord(s).Got? {
        IdWords(ReadWord(s).rest, n - 1);
        var ws := WordsOf(s);
        assert |ws| >= n ==> ws[..n] == [ws[0]] + ws[1..][..n - 1] && ws[n..] == ws[1..][n - 1..];
      }
    }
  }

  lemma KeyWords(m: Manifest, s: string)
    ensures var r, ws := ParseKey(m, s), WordsOf(s);
      if |ws| >= 6 && [ws[0], ws[2], ws[4]] == ["enc_algo", "key_enc_algo", "enc_key"]
      then r == Some(m.(encrypted := true, encAlgo := ws[1], keyEncAlgo := ws[3], encryptedKeyHex := ws[5]))
      else r == None
  {
    FieldWords(s, "enc_algo");
    var a := ReadField(s, "enc_algo");
    if a.Got? {
      FieldWords(a.rest, "key_enc_algo");
      var b := ReadField(a.rest, "key_enc_algo");
      if b.Got? {
        FieldWords(b.rest, "enc_key");
      }
    }
  }

  lemma EncryptionWords(m: Manifest, s: string)
    requires ClearAt(WordsOf(s), 1)
    ensures ParseEncryption(m, s) == EncryptionIn(m, WordsOf(s))
  {
    NumberWords(s, "encrypted");
    var flag := ReadNumber(s, "encrypted");
    if flag.Got? {
      KeyWords(m, flag.rest);
    }
  }

  lemma ChunkWords(name: string, size: nat, chunkSize: nat, s: string)
    requires ClearAt(WordsOf(s), 1)
    ensures var r, ws := ParseChunks(name, size, chunkSize, s), WordsOf(s);
      if |ws| >= 2 && ws[0] == "chunks" && IsNumber(ws[1]) && |ws| >= 2 + NatValue(ws[1])
      then var end := 2 + NatValue(ws[1]);
        && r.Got? && r.value == Manifest(name, size, chunkSize, ws[2..end], false, "", "", "")
        && WordsOf(r.rest) == ws[end..]
      else r.Fail?
  {
    NumberWords(s, "chunks");
    var count := ReadNumber(s, "chunks");
    if count.Got? {
      IdWords(count.rest, count.value);
      var ws, n := WordsOf(s), count.value;
      if |ws| >= 2 + n {
        PartOfRest(ws, 2, 0, n);
      }
    }
  }

  // A part of the end is a part of the whole.
  lemma PartOfRest(ws: seq<string>, n: nat, a: nat, b: nat)
    requires n + a <= n + b <= |ws|
    ensures ws[n..][a..b] == ws[n + a..n + b] && ws[n..][b..] == ws[n + b..]
  {
  }

  lemma ChunksOfRest(name: string, size: nat, chunkSize: nat, s: string, ws: seq<string>)
    requires |ws| >= 4 && WordsOf(s) == ws[4..] && ClearAt(ws, 5)
    ensures var r := ParseChunks(name, size, chunkSize, s);
      if |ws| >= 6 && ws[4] == "chunks" && IsNumber(ws[5]) && |ws| >= 6 + NatValue(ws[5])
      then var end := 6 + NatValue(ws[5]);
        && r.Got? && r.value == Manifest(name, size, chunkSize, ws[6..end], false, "", "", "")
        && WordsOf(r.rest) == ws[end..]
      else r.Fail?
  {
    ChunkWords(name, size, chunkSize, s);
    if |ws| >= 6 && IsNumber(ws[5]) && |ws| >= 6 + NatValue(ws[5]) {
      PartOfRest(ws, 4, 2, 2 + NatValue(ws[5]));
    }
  }

  lemma SizeWords(name: string, s: string)
    requires ClearAt(WordsOf(s), 1) && ClearAt(WordsOf(s), 3) && ClearAt(WordsOf(s), 5)
    ensures var r, ws := ParseSizes(name, s), WordsOf(s);
      match SizesIn(name, ws)
      case None => r.Fail?
      case Some(m) => r.Got? && r.value == m && WordsOf(r.rest) == ws[6 + |m.chunks|..]
  {
    var ws := WordsOf(s);
    NumberWords(s, "size");
    var size := ReadNumber(s, "size");
    if size.Got? {
      NumberWords(size.rest, "chunk_size");
      var chunkSize := ReadNumber(size.rest, "chunk_size");
      if chunkSize.Got? {
        ChunksOfRest(name, size.value, chunkSize.value, chunkSize.rest, ws);
      }
    }
  }

  /** A manifest's text, of any layout, is read as its words say. **/
  lemma ManifestIsRead(text: string)
    requires ClearManifest(WordsOf(text))
    ensures Parse(text) == ManifestIn(WordsOf(text))
  {
    var ws := WordsOf(text);
    FieldWords(text, "filename");
    var name := ReadField(text, "filename");
    if name.Got? {
      SizeWords(name.value, name.rest);
      var sizes := ParseSizes(name.value, name.rest);
      if sizes.Got? {
        var end := 6 + |sizes.value.chunks|;
        assert ws[2..][end..] == ws[2 + end..];
        EncryptionWords(sizes.value, sizes.rest);
      }
    }
  }

  /** metadata.db **/

  // Name, size and age; the rest is not read once an entry is incomplete.
  function EntriesIn(ws: seq<string>, meta: map<string, ChunkMeta>): map<string, ChunkMeta>
    decreases |ws|
  {
    if |ws| < 3 || !IsNumber(ws[1]) || !IsNumber(ws[2]) then meta
    else EntriesIn(ws[3..], meta[ws[0] := ChunkMeta(NatValue(ws[1]), NatValue(ws[2]))])
  }

  predicate ClearEntries(ws: seq<string>)
    decreases |ws|
  {
    ClearAt(ws, 1) && ClearAt(ws, 2) && (|ws| >= 3 ==> ClearEntries(ws[3..]))
  }

  function SavedIn(ws: seq<string>): Option<Saved> {
    if |ws| < 2 || !IsNumber(ws[0]) || !IsNumber(ws[1]) then None
    else Some(Saved(NatValue(ws[0]), NatValue(ws[1]), EntriesIn(ws[2..], map[])))
  }

  lemma EntryWords(s: string)
    requires ClearAt(WordsOf(s), 1) && ClearAt(WordsOf(s), 2)
    ensures var r, ws := ReadLine(s), WordsOf(s);
      if |ws| >= 3 && IsNumber(ws[1]) && IsNumber(ws[2])
      then r.Some? && r.value.id == ws[0] && r.value.m == ChunkMeta(NatValue(ws[1]), NatValue(ws[2]))
           && WordsOf(r.value.rest) == ws[3..]
      else r == None
  {
    NextWord(s);
    if ReadWord(s).Got? {
      var s1 := ReadWord(s).rest;
      NextWord(s1);
      NumberWord(s1);
      if ReadNat(s1).Got? {
        NextWord(ReadNat(s1).rest);
        NumberWord(ReadNat(s1).rest);
      }
    }
  }

  lemma {:induction false} EntriesAreRead(s: string, meta: map<string, ChunkMeta>)
    requires ClearEntries(WordsOf(s))
    ensures ReadLines(s, meta) == EntriesIn(WordsOf(s), meta)
    decreases |s|
  {
    EntryWords(s);
    var r := ReadLine(s);
    if r.Some? {
      EntriesAreRead(r.value.rest, meta[r.value.id := r.value.m]);
    }
  }

  /** Any text in the place of metadata.db is read as its words say; without two numbers in front it is none. **/
  lemma DatabaseIsRead(text: string)
    requires ClearAt(WordsOf(text), 0) && ClearAt(WordsOf(text), 1)
    requires |WordsOf(text)| >= 2 ==> ClearEntries(WordsOf(text)[2..])
    ensures ParseDb(text) == SavedIn(WordsOf(text))
  {
    NextWord(text);
    NumberWord(text);
    var counter := ReadNat(text);
    if counter.Got? {
      NextWord(counter.rest);
      NumberWord(counter.rest);
      var used := ReadNat(counter.rest);
      if used.Got? {
        EntriesAreRead(used.rest, map[]);
      }
    }
  }

  /** Requests to a peer **/

  predicate NoNewline(h: string) {
    forall i | 0 <= i < |h| :: h[i] != '\n'
  }

  lemma {:induction false} WithoutSnoc(h: string, acc: string, c: char)
    requires c != '\r'
    ensures acc + Without([c] + h, '\r') == (acc + [c]) + Without(h, '\r')
  {
    assert ([c] + h)[1..] == h;
  }

  lemma {:induction false} LineIs(h: string, acc: string, rest: string)
    requires NoNewline(h) && |acc| <= Framing.LINE_CAP
    ensures var r := Framing.LineOf(h + ("\n" + rest), acc);
      if |acc + Without(h, '\r')| <= Framing.LINE_CAP then r == (Some(acc + Without(h, '\r')), rest) else r.0 == None
    ensures Framing.LineOf(h, acc).0 == None
  {
    if h == "" {
      assert h + ("\n" + rest) == "\n" + rest && ("\n" + rest)[1..] == rest;
      assert acc + Without(h, '\r') == acc;
    } else {
      assert (h + ("\n" + rest))[1..] == h[1..] + ("\n" + rest);
      assert h == [h[0]] + h[1..];
      if h[0] == '\r' {
        LineIs(h[1..], acc, rest);
      } else {
        WithoutSnoc(h[1..], acc, h[0]);
        if |acc| + 1 <= Framing.LINE_CAP {
          LineIs(h[1..], acc + [h[0]], rest);
        }
      }
    }
  }

  function WordAt(ws: seq<string>, i: nat): string {
    if i < |ws| then ws[i] else ""
  }

  // The number that word i begins with; 0 without one.
  function NumberAt(ws: seq<string>, i: nat): nat {
    if i < |ws| then Leading(ws[i]) else 0
  }

  lemma LeadingRead(s: string)
    ensures (match ReadNat(s) case Fail => 0 case Got(n, _) => n) == NumberAt(WordsOf(s), 0)
  {
    NumberRead(s);
    var ws := WordsOf(s);
    if ws != [] {
      AllDigits(ws[0]);
    }
  }

  // A command, an id, and for the two that store something a size and so many bytes.
  function RequestIn(ws: seq<string>, rest: string): Framing.Request {
    var id, size := WordAt(ws, 1), NumberAt(ws, 2);
    match WordAt(ws, 0)
    case "PUT_CHUNK" => if size > |rest| then Framing.Cut else Framing.PutChunk(id, rest[..size])
    case "PUT_MANIFEST" => if size > |rest| then Framing.Cut else Framing.PutManifest(id, rest[..size])
    case "GET_CHUNK" => Framing.GetChunk(id)
    case "GET_MANIFEST" => Framing.GetManifest(id)
    case "HAS_CHUNK" => Framing.HasChunk(id)
    case "HAS_MANIFEST" => Framing.HasManifest(id)
    case _ => Framing.Unknown
  }

  lemma RequestWords(line: string)
    ensures var (cmd, args) := Framing.WordOr(line); var ws := WordsOf(line);
      cmd == WordAt(ws, 0) && Framing.IdAndSize(args) == (WordAt(ws, 1), NumberAt(ws, 2))
  {
    NextWord(line);
    var ws := WordsOf(line);
    var (_, args) := Framing.WordOr(line);
    NextWord(args);
    var (_, rest) := Framing.WordOr(args);
    assert WordsOf("") == [];
    LeadingRead(rest);
  }

  /**
   * Any bytes sent to a peer: what comes before the first newline is read as its words say, carriage returns left out,
   * with as many of the bytes after it as it asks for; a line that is too long, or never ends, is no request.
   */
  lemma RequestIsRead(h: string, rest: string)
    requires NoNewline(h)
    ensures Framing.RequestOf(h + ("\n" + rest))
         == if |Without(h, '\r')| > 8192 then Framing.NoLine else RequestIn(WordsOf(Without(h, '\r')), rest)
    ensures Framing.RequestOf(h) == Framing.NoLine
  {
    var line := Without(h, '\r');
    LineIs(h, "", rest);
    assert "" + line == line;
    if |line| <= Framing.LINE_CAP {
      LineIsRequest(h + ("\n" + rest), line, rest);
    }
  }

  lemma LineIsRequest(bytes: string, line: string, rest: string)
    requires Framing.LineOf(bytes, "") == (Some(line), rest)
    ensures Framing.RequestOf(bytes) == RequestIn(WordsOf(line), rest)
  {
    RequestWords(line);
  }

  /** Replies **/

  /**
   * Any bytes received in answer to a GET: "OK" and a size before the first newline stand for so many of the bytes
   * after it; any other word, and fewer bytes, for nothing.
   */
  lemma ReplyIsRead(h: string, rest: string)
    requires NoNewline(h) && |Without(h, '\r')| <= 8192
    ensures var ws := WordsOf(Without(h, '\r')); var size := NumberAt(ws, 1);
      Framing.DataOf(h + ("\n" + rest))
      == if WordAt(ws, 0) == "OK" && size <= |rest| then Some(rest[..size]) else None
  {
    var line := Without(h, '\r');
    LineIs(h, "", rest);
    assert "" + line == line;
    StatusWords(line);
  }

  lemma StatusWords(line: string)
    ensures var (status, args) := Framing.WordOr(line); var ws := WordsOf(line);
      status == WordAt(ws, 0) && (match ReadNat(args) case Fail => 0 case Got(n, _) => n) == NumberAt(ws, 1)
  {
    NextWord(line);
    var (_, args) := Framing.WordOr(line);
    assert WordsOf("") == [];
    LeadingRead(args);
  }

  /** Lines sent to the tracker **/

  function PeerAt(ws: seq<string>, i: nat): Option<string> {
    var port := NumberAt(ws, i + 1);
    if 1 <= port <= 65535 then Some(ws[i] + ":" + NatText(port)) else None
  }

  // NEED_REPAIR stops reading where a number breaks off.
  function CommandIn(ws: seq<string>): Tracker.Command {
    match WordAt(ws, 0)
    case "REGISTER" => Seen(PeerAt(ws, 1))
    case "HEARTBEAT" => Seen(PeerAt(ws, 1))
    case "ANNOUNCE" =>
      (match PeerAt(ws, 2)
       case Some(peer) => Tracker.Announce(ws[1], peer)
       case None => Tracker.Invalid)
    case "WHERE" => if |ws| > 1 then Tracker.Where(ws[1]) else Tracker.Invalid
    case "NEED_REPAIR" =>
      var desired := NumberAt(ws, 1);
      var limit := if |ws| > 1 && IsNumber(ws[1]) then NumberAt(ws, 2) else 0;
      Tracker.NeedRepair(if desired == 0 then 2 else desired, if limit == 0 then 50 else limit)
    case "GET_PEERS" => Tracker.GetPeers
    case _ => Tracker.Invalid
  }

  function Seen(peer: Option<string>): Tracker.Command {
    match peer
    case Some(p) => Tracker.Sighting(p)
    case None => Tracker.Invalid
  }

  lemma WordWords(s: string)
    ensures var (w, rest) := Tracker.WordOf(s); var ws := WordsOf(s);
      w == WordAt(ws, 0) && WordsOf(rest) == if |ws| == 0 then [] else ws[1..]
    ensures WordsOf(s) != [] ==> Tracker.WordOf(s).0 != ""
  {
    NextWord(s);
    assert WordsOf("") == [];
  }

  lemma CountWords(s: string)
    ensures Tracker.NumberOf(s).0 == NumberAt(WordsOf(s), 0)
  {
    LeadingRead(s);
  }

  // A second number is read only if the first was a word by itself.
  lemma TwoCounts(s: string)
    ensures var (_, rest) := Tracker.NumberOf(s); var ws := WordsOf(s);
      Tracker.NumberOf(rest).0 == if |ws| > 0 && IsNumber(ws[0]) then NumberAt(ws, 1) else 0
  {
    NextWord(s);
    NumberRead(s);
    var (_, rest) := Tracker.NumberOf(s);
    CountWords(rest);
    assert WordsOf("") == [];
    if WordsOf(s) != [] {
      AllDigits(WordsOf(s)[0]);
      if IsNumber(WordsOf(s)[0]) {
        NumberIsLeading(WordsOf(s)[0]);
      }
    }
  }

  lemma PeerWords(s: string)
    ensures var (ip, rest) := Tracker.WordOf(s); var (port, _) := Tracker.NumberOf(rest);
      (if Tracker.IsPeer(ip, port) then Some(Tracker.Entry(ip, port)) else None) == PeerAt(WordsOf(s), 0)
  {
    WordWords(s);
    CountWords(Tracker.WordOf(s).1);
    var (ip, rest) := Tracker.WordOf(s);
    var (port, _) := Tracker.NumberOf(rest);
    assert |WordsOf(s)| > 1 ==> WordsOf(s)[1..][0] == WordsOf(s)[1];
  }

  lemma AnnouncedWords(args: string, ws: seq<string>)
    requires ws != [] && WordsOf(args) == ws[1..]
    ensures var (chunk, rest) := Tracker.WordOf(args);
      var (ip, rest') := Tracker.WordOf(rest);
      var (port, _) := Tracker.NumberOf(rest');
      && chunk == WordAt(ws, 1) && (|ws| > 1 ==> chunk != "")
      && (if Tracker.IsPeer(ip, port) then Some(Tracker.Entry(ip, port)) else None) == PeerAt(ws, 2)
  {
    WordWords(args);
    PeerWords(Tracker.WordOf(args).1);
  }

  lemma RepairWords(args: string, ws: seq<string>)
    requires ws != [] && WordsOf(args) == ws[1..]
    ensures var (desired, rest) := Tracker.NumberOf(args); var (limit, _) := Tracker.NumberOf(rest);
      desired == NumberAt(ws, 1) && limit == if |ws| > 1 && IsNumber(ws[1]) then NumberAt(ws, 2) else 0
  {
    CountWords(args);
    TwoCounts(args);
  }

  lemma SightingIsRead(line: string)
    requires WordAt(WordsOf(line), 0) == "REGISTER" || WordAt(WordsOf(line), 0) == "HEARTBEAT"
    ensures Tracker.CommandOf(line) == CommandIn(WordsOf(line))
  {
    WordWords(line);
    PeerWords(Tracker.WordOf(line).1);
  }

  lemma AnnounceIsRead(line: string)
    requires WordAt(WordsOf(line), 0) == "ANNOUNCE"
    ensures Tracker.CommandOf(line) == CommandIn(WordsOf(line))
  {
    WordWords(line);
    AnnouncedWords(Tracker.WordOf(line).1, WordsOf(line));
  }

  lemma RepairIsRead(line: string)
    requires WordAt(WordsOf(line), 0) == "NEED_REPAIR"
    ensures Tracker.CommandOf(line) == CommandIn(WordsOf(line))
  {
    WordWords(line);
    RepairWords(Tracker.WordOf(line).1, WordsOf(line));
  }

  /** Any line sent to the tracker is read as its words say. **/
  lemma CommandIsRead(line: string)
    ensures Tracker.CommandOf(line) == CommandIn(WordsOf(line))
  {
    var cmd := WordAt(WordsOf(line), 0);
    if cmd == "REGISTER" || cmd == "HEARTBEAT" {
      SightingIsRead(line);
    } else if cmd == "ANNOUNCE" {
      AnnounceIsRead(line);
    } else if cmd == "NEED_REPAIR" {
      RepairIsRead(line);
    } else {
      WordWords(line);
      WordWords(Tracker.WordOf(line).1);
    }
  }
}
