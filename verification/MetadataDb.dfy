/** The text of metadata.db: what persistMetadata writes and what loadMetadata makes of any text. */
module MetadataDb {
  import opened Basics
  import opened Text
  import opened Store

  // Two numbers, then one line per chunk, in whatever order the hash table yields them.
  function DbText(counter: nat, used: nat, meta: map<string, ChunkMeta>, order: seq<string>): string
    requires forall id | id in order :: id in meta
  {
    NatText(counter) + (" " + (NatText(used) + ("\n" + Lines(meta, order))))
  }

  function Lines(meta: map<string, ChunkMeta>, order: seq<string>): string
    requires forall id | id in order :: id in meta
  {
    if order == [] then "" else Line(order[0], meta[order[0]]) + ("\n" + Lines(meta, order[1..]))
  }

  function Line(id: string, m: ChunkMeta): string {
    id + (" " + (NatText(m.size) + (" " + NatText(m.lastAccess))))
  }

  function ParseDb(text: string): Option<Saved> {
    match ReadNat(text)
    case Fail => None
    case Got(counter, rest) =>
      match ReadNat(rest)
      case Fail => None
      case Got(used, rest) => Some(Saved(counter, used, ReadLines(rest, map[])))
  }

  datatype LineRead = LineRead(id: string, m: ChunkMeta, rest: string)

  // in >> id >> m.size >> m.lastAccess
  function ReadLine(s: string): (r: Option<LineRead>)
    ensures r.Some? ==> |r.value.rest| < |s|
  {
    match ReadWord(s)
    case Fail => None
    case Got(id, rest) =>
      match ReadNat(rest)
      case Fail => None
      case Got(size, rest) =>
        match ReadNat(rest)
        case Fail => None
        case Got(lastAccess, rest) => Some(LineRead(id, ChunkMeta(size, lastAccess), rest))
  }

  // Lines are read until one does not parse; later lines win.
  function ReadLines(s: string, meta: map<string, ChunkMeta>): map<string, ChunkMeta>
    decreases |s|
  {
    match ReadLine(s)
    case None => meta
    case Some(l) => ReadLines(l.rest, meta[l.id := l.m])
  }

  // Names read from metadata.db are words.
  lemma {:induction false} ReadLinesReadable(s: string, meta: map<string, ChunkMeta>)
    requires forall id | id in meta :: IsToken(id)
    ensures forall id | id in ReadLines(s, meta) :: IsToken(id)
    decreases |s|
  {
    match ReadLine(s)
    case None =>
    case Some(l) => ReadLinesReadable(l.rest, meta[l.id := l.m]);
  }

  lemma ReadLineOf(id: string, m: ChunkMeta, rest: string)
    requires IsToken(id) && Ends(rest)
    ensures ReadLine("\n" + (Line(id, m) + rest)) == Some(LineRead(id, m, rest))
  {
    var a, b := NatText(m.size), NatText(m.lastAccess);
    var r2 := " " + (b + rest);
    var r1 := " " + (a + r2);
    assert Line(id, m) + rest == id + r1 by {
      Assoc(id, " " + (a + (" " + b)), rest);
      Assoc(" ", a + (" " + b), rest);
      Assoc(a, " " + b, rest);
      Assoc(" ", b, rest);
    }
    ReadWordOf(id, r1);
    ReadNatOf(m.size, r2);
    ReadNatOf(m.lastAccess, rest);
    assert ReadWord("\n" + (id + r1)) == Got(id, r1);
    assert ReadNat(r1) == Got(m.size, r2);
    assert ReadNat(r2) == Got(m.lastAccess, rest);
  }

  function Listed(meta: map<string, ChunkMeta>, order: seq<string>, acc: map<string, ChunkMeta>): map<string, ChunkMeta>
    requires forall id | id in order :: id in meta
  {
    if order == [] then acc else Listed(meta, order[1..], acc[order[0] := meta[order[0]]])
  }

  lemma {:induction false} ListedAll(meta: map<string, ChunkMeta>, order: seq<string>, acc: map<string, ChunkMeta>)
    requires forall id | id in order :: id in meta
    requires forall id | id in acc :: id in meta && acc[id] == meta[id]
    requires forall id | id in meta :: id in acc || id in order
    ensures Listed(meta, order, acc) == meta
  {
    if order != [] {
      assert order == [order[0]] + order[1..];
      ListedAll(meta, order[1..], acc[order[0] := meta[order[0]]]);
    } else {
      assert acc == meta;
    }
  }

  lemma {:induction false} ReadLinesOf(meta: map<string, ChunkMeta>, order: seq<string>, acc: map<string, ChunkMeta>)
    requires forall id | id in order :: id in meta && IsToken(id)
    ensures ReadLines("\n" + Lines(meta, order), acc) == Listed(meta, order, acc)
  {
    if order == [] {
      assert SkipSpace("\n" + "") == SkipSpace("") by {
        assert ("\n" + "")[1..] == "";
      }
    } else {
      var rest := "\n" + Lines(meta, order[1..]);
      ReadLineOf(order[0], meta[order[0]], rest);
      assert "\n" + Lines(meta, order) == "\n" + (Line(order[0], meta[order[0]]) + rest);
      ReadLinesOf(meta, order[1..], acc[order[0] := meta[order[0]]]);
    }
  }

  lemma {:induction false} LinesSnoc(meta: map<string, ChunkMeta>, order: seq<string>, id: string)
    requires id in meta && forall h | h in order :: h in meta
    ensures Lines(meta, order + [id]) == Lines(meta, order) + (Line(id, meta[id]) + "\n")
  {
    if order == [] {
      assert [id][1..] == [];
      assert [] + [id] == [id];
    } else {
      LinesSnoc(meta, order[1..], id);
      assert (order + [id])[1..] == order[1..] + [id];
    }
  }

  lemma ReadTotals(counter: nat, used: nat, rest: string)
    requires Ends(rest)
    ensures ReadNat(NatText(counter) + (" " + (NatText(used) + rest))) == Got(counter, " " + (NatText(used) + rest))
    ensures ReadNat(" " + (NatText(used) + rest)) == Got(used, rest)
  {
    ReadNatOf(counter, " " + (NatText(used) + rest));
    ReadNatOf(used, rest);
  }

  /** Reading back what was written gives the same counter, total and index, whatever order the lines are in. **/
  lemma DbRoundTrip(counter: nat, used: nat, meta: map<string, ChunkMeta>, order: seq<string>)
    requires forall id :: id in order <==> id in meta
    requires forall id | id in meta :: IsToken(id)
    ensures ParseDb(DbText(counter, used, meta, order)) == Some(Saved(counter, used, meta))
  {
    ReadTotals(counter, used, "\n" + Lines(meta, order));
    ReadLinesOf(meta, order, map[]);
    ListedAll(meta, order, map[]);
  }
}
