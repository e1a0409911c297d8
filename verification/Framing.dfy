/**
 * Requests and replies as bytes on a connection (src/core/net/tcp.cpp, src/core/peer/peer_client.cpp and the receiving
 * half of src/core/peer/peer_service.cpp). A connection delivers its bytes in pieces of any positive size and then
 * closes; what a receiver makes of it depends only on the bytes.
 */
module Framing {
  import opened Basics
  import opened Text

  /** Connections **/

  // The receiving end: "pending" is all that will still arrive before the peer closes or times out.
  class Stream {
    var pending: string

    constructor (bytes: string)
      ensures pending == bytes
    {
      pending := bytes;
    }

    // recv: at least one byte and at most n, or nothing once the peer has closed.
    method Recv(n: nat) returns (data: string)
      requires n > 0
      modifies this
      ensures old(pending) == data + pending && |data| <= n
      ensures data == "" <==> old(pending) == ""
    {
      if pending == "" {
        return "";
      }
      var k: nat :| 1 <= k <= n && k <= |pending|;
      data, pending := pending[..k], pending[k..];
    }
  }

  // The sending end.
  class Sink {
    var sent: string

    constructor ()
      ensures sent == ""
    {
      sent := "";
    }

    // send: takes part of the data, or fails.
    method Send(data: string) returns (n: int)
      modifies this
      ensures n <= |data|
      ensures sent == if n <= 0 then old(sent) else old(sent) + data[..n]
    {
      n := *;
      if n > |data| {
        n := |data|;
      }
      if n > 0 {
        sent := sent + data[..n];
      }
    }
  }

  // send_all_nothrow: everything was sent, or a part and no more.
  method SendAll(sink: Sink, data: string) returns (ok: bool)
    modifies sink
    ensures ok ==> sink.sent == old(sink.sent) + data
    ensures !ok ==> exists k :: 0 <= k < |data| && sink.sent == old(sink.sent) + data[..k]
  {
    var p: nat := 0;
    assert old(sink.sent) + data[..0] == old(sink.sent);
    while p < |data|
      invariant p <= |data| && sink.sent == old(sink.sent) + data[..p]
    {
      var n := sink.Send(data[p..]);
      if n <= 0 {
        return false;
      }
      assert data[..p] + data[p..][..n] == data[..p + n];
      p := p + n;
    }
    assert data[..p] == data;
    ok := true;
  }

  /** Lines **/

  const LINE_CAP: nat := 8192

  // What recv_line makes of the bytes: the line without carriage returns, or None, and what is left.
  function LineOf(s: string, line: string): (Option<string>, string) {
    if s == "" then (None, "")
    else if s[0] == '\n' then (Some(line), s[1..])
    else
      var line' := if s[0] == '\r' then line else line + [s[0]];
      if |line'| > LINE_CAP then (None, s[1..]) else LineOf(s[1..], line')
  }

  method RecvLine(stream: Stream) returns (line: Option<string>)
    modifies stream
    ensures (line, stream.pending) == LineOf(old(stream.pending), "")
  {
    var out := "";
    while true
      invariant |out| <= LINE_CAP
      invariant LineOf(stream.pending, out) == LineOf(old(stream.pending), "")
      decreases |stream.pending|
    {
      ghost var before := stream.pending;
      var ch := stream.Recv(1);
      if ch == "" {
        return None;
      }
      assert ch == [before[0]] && before[1..] == stream.pending;
      if ch[0] == '\n' {
        return Some(out);
      }
      if ch[0] != '\r' {
        out := out + ch;
      }
      if |out| > LINE_CAP {
        return None;
      }
    }
  }

  predicate LineText(h: string) {
    forall i | 0 <= i < |h| :: h[i] != '\n' && h[i] != '\r'
  }

  lemma {:induction false} LineOfText(h: string, acc: string, rest: string)
    requires LineText(h)
    ensures LineOf(h + ("\n" + rest), acc).0 == if |acc + h| <= LINE_CAP || h == "" then Some(acc + h) else None
    ensures |acc + h| <= LINE_CAP ==> LineOf(h + ("\n" + rest), acc).1 == rest
  {
    if h == "" {
      assert h + ("\n" + rest) == "\n" + rest;
      assert ("\n" + rest)[1..] == rest;
      assert acc + h == acc;
    } else {
      assert (h + ("\n" + rest))[1..] == h[1..] + ("\n" + rest);
      assert acc + h == (acc + [h[0]]) + h[1..];
      if |acc| + 1 <= LINE_CAP {
        LineOfText(h[1..], acc + [h[0]], rest);
      }
    }
  }

  // Without its newline a line is never complete.
  lemma {:induction false} LineCutShort(h: string, acc: string)
    requires LineText(h)
    ensures LineOf(h, acc).0 == None
  {
    if h != "" {
      LineCutShort(h[1..], acc + [h[0]]);
    }
  }

  // The payload loop: size bytes, or fewer if the peer closes first.
  method RecvPayload(stream: Stream, size: nat, block: nat) returns (data: string)
    requires block > 0
    modifies stream
    ensures data + stream.pending == old(stream.pending)
    ensures if size <= |old(stream.pending)| then |data| == size else data == old(stream.pending)
  {
    data := "";
    var remaining: nat := size;
    while remaining > 0
      invariant remaining + |data| == size && data + stream.pending == old(stream.pending)
      invariant |data| + |stream.pending| == |old(stream.pending)|
    {
      var piece := stream.Recv(if remaining < block then remaining else block);
      if piece == "" {
        assert data == old(stream.pending);
        return;
      }
      data := data + piece;
      remaining := remaining - |piece|;
    }
  }

  /** Requests **/

  datatype Request =
    | NoLine                                    // closed before a line was complete: no reply
    | Cut                                       // closed inside a payload: ERR
    | PutChunk(id: string, data: string)
    | GetChunk(id: string)
    | HasChunk(id: string)
    | PutManifest(id: string, text: string)
    | GetManifest(id: string)
    | HasManifest(id: string)
    | Unknown                                   // no reply

  // iss >> id: empty when there is no word.
  function WordOr(s: string): (string, string) {
    match ReadWord(s)
    case Fail => ("", "")
    case Got(w, rest) => (w, rest)
  }

  // iss >> id >> size: the size stays 0 when it cannot be read.
  function IdAndSize(s: string): (string, nat) {
    var (id, rest) := WordOr(s);
    (id, match ReadNat(rest) case Fail => 0 case Got(n, _) => n)
  }

  // What the server takes the bytes of one connection to be.
  function RequestOf(bytes: string): Request {
    var (line, rest) := LineOf(bytes, "");
    match line
    case None => NoLine
    case Some(l) =>
      var (cmd, args) := WordOr(l);
      var (id, size) := IdAndSize(args);
      if cmd == "PUT_CHUNK" then (if size <= |rest| then PutChunk(id, rest[..size]) else Cut)
      else if cmd == "GET_CHUNK" then GetChunk(id)
      else if cmd == "HAS_CHUNK" then HasChunk(id)
      else if cmd == "PUT_MANIFEST" then (if size <= |rest| then PutManifest(id, rest[..size]) else Cut)
      else if cmd == "GET_MANIFEST" then GetManifest(id)
      else if cmd == "HAS_MANIFEST" then HasManifest(id)
      else Unknown
  }

  // The front of runLoop: a line, then as much payload as it announces, in receives of at most 4096 bytes.
  method RecvRequest(stream: Stream) returns (r: Request)
    modifies stream
    ensures r == RequestOf(old(stream.pending))
  {
    var line := RecvLine(stream);
    if line.None? {
      return NoLine;
    }
    var (cmd, args) := WordOr(line.value);
    var (id, size) := IdAndSize(args);
    if cmd == "PUT_CHUNK" || cmd == "PUT_MANIFEST" {
      ghost var rest := stream.pending;
      var data := RecvPayload(stream, size, 4096);
      if |data| != size {
        return Cut;
      }
      assert data == rest[..size];
      r := if cmd == "PUT_CHUNK" then PutChunk(id, data) else PutManifest(id, data);
    } else if cmd == "GET_CHUNK" {
      r := GetChunk(id);
    } else if cmd == "HAS_CHUNK" {
      r := HasChunk(id);
    } else if cmd == "GET_MANIFEST" {
      r := GetManifest(id);
    } else if cmd == "HAS_MANIFEST" {
      r := HasManifest(id);
    } else {
      r := Unknown;
    }
  }

  // What the client sends.
  function HeaderLine(cmd: string, id: string, size: nat): string {
    cmd + (" " + (id + (" " + NatText(size))))
  }

  function PutMessage(cmd: string, id: string, data: string): string {
    HeaderLine(cmd, id, |data|) + ("\n" + data)
  }

  function AskMessage(cmd: string, id: string): string {
    cmd + (" " + id) + "\n"
  }

  lemma TokenIsLineText(w: string)
    requires NoSpace(w)
    ensures LineText(w)
  {
    assert IsSpace('\n') && IsSpace('\r');
  }

  lemma LineTextConcat(a: string, b: string)
    requires LineText(a) && LineText(b)
    ensures LineText(a + b)
  {
  }

  lemma HeaderIsText(cmd: string, id: string, size: nat)
    requires NoSpace(cmd) && NoSpace(id)
    ensures LineText(HeaderLine(cmd, id, size))
  {
    var n := NatText(size);
    TokenIsLineText(cmd);
    TokenIsLineText(id);
    TokenIsLineText(n);
    LineTextConcat(" ", n);
    LineTextConcat(id, " " + n);
    LineTextConcat(" ", id + (" " + n));
    LineTextConcat(cmd, " " + (id + (" " + n)));
  }

  lemma IdAndSizeOf(id: string, size: nat)
    requires IsToken(id)
    ensures IdAndSize(" " + (id + (" " + NatText(size)))) == (id, size)
  {
    var n := NatText(size);
    var rest := " " + n;
    ReadWordOf(id, rest);
    assert ReadWord(" " + (id + rest)) == Got(id, rest);
    ReadNatOf(size, "");
    assert n + "" == n;
    assert ReadNat(rest) == Got(size, "");
  }

  lemma HeaderIsLine(cmd: string, id: string, size: nat)
    requires IsToken(cmd) && IsToken(id)
    ensures LineText(HeaderLine(cmd, id, size))
    ensures WordOr(HeaderLine(cmd, id, size)).0 == cmd
    ensures IdAndSize(WordOr(HeaderLine(cmd, id, size)).1) == (id, size)
  {
    HeaderIsText(cmd, id, size);
    IdAndSizeOf(id, size);
    ReadWordOf(cmd, " " + (id + (" " + NatText(size))));
  }

  /**
   * Whatever follows the message, the server reads back exactly the id and the bytes that were sent, as long as the
   * header line is within recv_line's cap; beyond the cap it reads no request at all.
   */
  lemma PutMessageIsUnderstood(id: string, data: string, extra: string)
    requires IsToken(id)
    ensures RequestOf(PutMessage("PUT_CHUNK", id, data) + extra)
         == if |HeaderLine("PUT_CHUNK", id, |data|)| <= LINE_CAP then PutChunk(id, data) else NoLine
    ensures RequestOf(PutMessage("PUT_MANIFEST", id, data) + extra)
         == if |HeaderLine("PUT_MANIFEST", id, |data|)| <= LINE_CAP then PutManifest(id, data) else NoLine
  {
    UnderstoodAs("PUT_CHUNK", id, data, extra);
    UnderstoodAs("PUT_MANIFEST", id, data, extra);
  }

  lemma UnderstoodAs(cmd: string, id: string, data: string, extra: string)
    requires IsToken(id) && (cmd == "PUT_CHUNK" || cmd == "PUT_MANIFEST")
    ensures RequestOf(PutMessage(cmd, id, data) + extra)
         == if |HeaderLine(cmd, id, |data|)| > LINE_CAP then NoLine
            else if cmd == "PUT_CHUNK" then PutChunk(id, data) else PutManifest(id, data)
  {
    var h := HeaderLine(cmd, id, |data|);
    HeaderIsLine(cmd, id, |data|);
    Assoc(h, "\n" + data, extra);
    Assoc("\n", data, extra);
    LineOfText(h, "", data + extra);
    assert "" + h == h;
    assert (data + extra)[..|data|] == data;
  }

  lemma ShortPayload(cmd: string, id: string, size: nat, part: string)
    requires IsToken(id) && (cmd == "PUT_CHUNK" || cmd == "PUT_MANIFEST") && |part| < size
    ensures RequestOf(HeaderLine(cmd, id, size) + ("\n" + part)) in {NoLine, Cut}
  {
    var h := HeaderLine(cmd, id, size);
    HeaderIsLine(cmd, id, size);
    LineOfText(h, "", part);
    assert "" + h == h;
  }

  /** However early the connection breaks off, no truncated data is taken for a request. **/
  lemma CutMessageStoresNothing(cmd: string, id: string, data: string, n: nat)
    requires IsToken(id) && (cmd == "PUT_CHUNK" || cmd == "PUT_MANIFEST")
    requires n < |PutMessage(cmd, id, data)|
    ensures RequestOf(PutMessage(cmd, id, data)[..n]) in {NoLine, Cut}
  {
    var h := HeaderLine(cmd, id, |data|);
    if n <= |h| {
      HeaderIsText(cmd, id, |data|);
      assert PutMessage(cmd, id, data)[..n] == h[..n];
      LineCutShort(h[..n], "");
    } else {
      var part := data[..n - |h| - 1];
      assert PutMessage(cmd, id, data)[..n] == h + ("\n" + part);
      ShortPayload(cmd, id, |data|, part);
    }
  }

  lemma AskIsLine(cmd: string, id: string)
    requires IsToken(id) && IsToken(cmd)
    ensures LineText(cmd + (" " + id)) && WordOr(cmd + (" " + id)) == (cmd, " " + id) && WordOr(" " + id) == (id, "")
  {
    TokenIsLineText(cmd);
    TokenIsLineText(id);
    ReadWordOf(cmd, " " + id);
    ReadWordOf(id, "");
    assert id + "" == id;
  }

  lemma AskIsUnderstood(cmd: string, id: string)
    requires IsToken(id) && IsToken(cmd) && |cmd| + 1 + |id| <= LINE_CAP
    ensures var r := RequestOf(AskMessage(cmd, id));
      && (cmd == "GET_CHUNK" ==> r == GetChunk(id)) && (cmd == "HAS_CHUNK" ==> r == HasChunk(id))
      && (cmd == "GET_MANIFEST" ==> r == GetManifest(id)) && (cmd == "HAS_MANIFEST" ==> r == HasManifest(id))
  {
    AskIsLine(cmd, id);
    var h := cmd + (" " + id);
    assert AskMessage(cmd, id) == h + ("\n" + "");
    LineOfText(h, "", "");
    assert "" + h == h;
    assert IdAndSize(" " + id).0 == id;
  }

  // A query that breaks off is no request.
  lemma CutAskIsNoRequest(cmd: string, id: string, n: nat)
    requires IsToken(id) && IsToken(cmd) && n < |AskMessage(cmd, id)|
    ensures RequestOf(AskMessage(cmd, id)[..n]) == NoLine
  {
    AskIsLine(cmd, id);
    var h := cmd + (" " + id);
    assert AskMessage(cmd, id)[..n] == h[..n];
    LineCutShort(h[..n], "");
  }

  /** Replies **/

  function StartsWithOk(s: string): bool {
    |s| >= 2 && s[..2] == "OK"
  }

  // "OK <size>" and the bytes.
  function DataReply(data: string): string {
    "OK" + (" " + NatText(|data|)) + ("\n" + data)
  }

  // What getChunk and getManifest make of a reply; None is an exception.
  function DataOf(reply: string): Option<string> {
    var (line, rest) := LineOf(reply, "");
    match line
    case None => None
    case Some(l) =>
      var (status, args) := WordOr(l);
      var size := match ReadNat(args) case Fail => 0 case Got(n, _) => n;
      if status != "OK" then None
      else if size <= |rest| then Some(rest[..size])
      else None
  }

  method RecvData(stream: Stream) returns (r: Option<string>)
    modifies stream
    ensures r == DataOf(old(stream.pending))
  {
    var line := RecvLine(stream);
    if line.None? {
      return None;
    }
    var (status, args) := WordOr(line.value);
    var size := match ReadNat(args) case Fail => 0 case Got(n, _) => n;
    if status != "OK" {
      return None;
    }
    ghost var rest := stream.pending;
    var out := "";
    while |out| < size
      invariant |out| <= size && out + stream.pending == rest
      decreases size - |out|
    {
      var piece := stream.Recv(size - |out|);
      if piece == "" {
        break;
      }
      out := out + piece;
    }
    if |out| != size {
      return None;
    }
    assert out == rest[..size];
    r := Some(out);
  }

  lemma SizeLine(n: nat)
    ensures LineText("OK" + (" " + NatText(n))) && WordOr("OK" + (" " + NatText(n))) == ("OK", " " + NatText(n))
    ensures ReadNat(" " + NatText(n)) == Got(n, "")
  {
    TokenIsLineText(NatText(n));
    ReadWordOf("OK", " " + NatText(n));
    ReadNatOf(n, "");
    assert NatText(n) + "" == NatText(n);
  }

  /** The bytes served are the bytes received, whatever follows them. **/
  lemma DataReplyIsUnderstood(data: string, extra: string)
    requires |"OK" + (" " + NatText(|data|))| <= LINE_CAP
    ensures DataOf(DataReply(data) + extra) == Some(data)
  {
    var h := "OK" + (" " + NatText(|data|));
    SizeLine(|data|);
    Assoc(h, "\n" + data, extra);
    Assoc("\n", data, extra);
    LineOfText(h, "", data + extra);
    assert "" + h == h;
    assert (data + extra)[..|data|] == data;
  }

  /** A reply that is cut short is an exception, never truncated data. **/
  lemma CutReplyIsNoData(data: string, n: nat)
    requires n < |DataReply(data)|
    ensures DataOf(DataReply(data)[..n]) == None
  {
    var h := "OK" + (" " + NatText(|data|));
    SizeLine(|data|);
    if n <= |h| {
      assert DataReply(data)[..n] == h[..n];
      LineCutShort(h[..n], "");
    } else {
      var part := data[..n - |h| - 1];
      assert DataReply(data)[..n] == h + ("\n" + part);
      LineOfText(h, "", part);
      assert "" + h == h;
    }
  }

  lemma ErrIsNoData()
    ensures DataOf("ERR\n") == None
  {
    LineOfText("ERR", "", "");
    assert "ERR" + ("\n" + "") == "ERR\n";
    assert "" + "ERR" == "ERR";
    ReadWordOf("ERR", "");
    assert "ERR" + "" == "ERR";
  }

  // The two one-line replies.
  lemma OkAndErrLines()
    ensures LineOf("OK\n", "").0 == Some("OK") && LineOf("ERR\n", "").0 == Some("ERR")
    ensures StartsWithOk("OK") && !StartsWithOk("ERR") && StartsWithOk("OK\n") && !StartsWithOk("ERR\n")
  {
    LineOfText("OK", "", "");
    LineOfText("ERR", "", "");
    assert "OK" + ("\n" + "") == "OK\n" && "ERR" + ("\n" + "") == "ERR\n";
    assert "" + "OK" == "OK" && "" + "ERR" == "ERR";
    assert "ERR"[..2][0] == 'E' && "ERR\n"[..2][0] == 'E';
    assert "OK\n"[..2] == "OK";
  }

  // Cut anywhere they are no line at all.
  lemma CutOkAndErrLines(n: nat)
    ensures n < 3 ==> LineOf("OK\n"[..n], "").0 == None
    ensures n < 4 ==> LineOf("ERR\n"[..n], "").0 == None
  {
    if n < 3 {
      assert "OK\n"[..n] == "OK"[..n];
      LineCutShort("OK"[..n], "");
    }
    if n < 4 {
      assert "ERR\n"[..n] == "ERR"[..n];
      LineCutShort("ERR"[..n], "");
    }
  }

  // The end of hasChunk: a line that starts with OK; anything else, or no line, is a no.
  method RecvOk(stream: Stream) returns (ok: bool)
    modifies stream
    ensures ok <==> LineOf(old(stream.pending), "").0.Some? && StartsWithOk(LineOf(old(stream.pending), "").0.value)
  {
    var line := RecvLine(stream);
    ok := line.Some? && StartsWithOk(line.value);
  }
}
