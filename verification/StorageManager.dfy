/** src/core/storage/storage_manager.cpp, class StorageManager, field by field and loop by loop. */
module StorageManager {
  import opened Basics
  import opened Text
  import opened Store
  import opened MetadataDb
  import opened Recency

  datatype ChunkInfo = ChunkInfo(id: string, size: nat, lastAccess: nat)

  // What a directory scan that visits the files in this order would index.
  function ScannedMeta(files: map<string, string>, order: seq<string>): map<string, ChunkMeta>
    requires forall id | id in order :: id in files
  {
    if order == [] then map[]
    else
      var before, last := order[..|order| - 1], order[|order| - 1];
      ScannedMeta(files, before)[last := ChunkMeta(|files[last]|, |order|)]
  }

  function Scanned(s: State, order: seq<string>): State
    requires forall id | id in order :: id in s.files
  {
    Persist(s.(meta := ScannedMeta(s.files, order), used := Total(order, s.files), counter := |order|))
  }

  lemma {:induction false} ScannedMembers(files: map<string, string>, order: seq<string>)
    requires forall id | id in order :: id in files
    ensures var meta := ScannedMeta(files, order);
      && (forall id :: id in meta <==> id in order)
      && (forall id | id in meta :: meta[id].size == |files[id]| && meta[id].lastAccess <= |order|)
  {
    if order != [] {
      var before, last := order[..|order| - 1], order[|order| - 1];
      assert order == before + [last];
      ScannedMembers(files, before);
    }
  }

  lemma {:induction false} ScannedClocked(files: map<string, string>, order: seq<string>)
    requires Distinct(order) && forall id | id in order :: id in files
    ensures Clocked(ScannedMeta(files, order), order)
  {
    if order != [] {
      var before, last := order[..|order| - 1], order[|order| - 1];
      ScannedClocked(files, before);
      ScannedMembers(files, before);
      var was, meta := ScannedMeta(files, before), ScannedMeta(files, order);
      assert last !in before;
      ClockedFrame(was, meta, before);
      ClockedSnoc(meta, before, last);
      assert order == before + [last];
    }
  }

  /** A scan of a directory of chunk files gives a consistent store, whatever order the files come in. **/
  lemma ScanIsConsistent(s: State, order: seq<string>)
    requires Distinct(order) && (forall id :: id in order <==> id in s.files)
    requires forall id | id in s.files :: IsChunkId(id)
    ensures Represents(Scanned(s, order), Cache(order, s.files))
  {
    ScannedMembers(s.files, order);
    ScannedClocked(s.files, order);
  }

  // State t, except that metadata.db need not be readable where a name in t's index is not a word.
  ghost predicate Is(s: State, t: State) {
    s == t || (!Readable(t) && s == t.(saved := s.saved))
  }

  // The text of the index in some order.
  ghost predicate IsDbOf(text: string, s: State) {
    exists order: seq<string> ::
      && Distinct(order) && (forall id :: id in order <==> id in s.meta)
      && text == DbText(s.counter, s.used, s.meta, order)
  }

  // What metadata.db holds after an operation: the index as it then is, or what it held before.
  ghost predicate Wrote(was: Option<string>, now: Option<string>, s: State, saves: bool) {
    if saves then now.Some? && IsDbOf(now.value, s) else now == was
  }

  class StorageManager {
    var maxBytes: nat
    var usedBytes: nat
    var accessCounter: nat
    var meta: map<string, ChunkMeta>
    var files: map<string, string>  // regular files under chunks/
    var db: Option<string>          // text of metadata.db, if it exists

    ghost function Model(): State
      reads this
    {
      State(maxBytes, usedBytes, accessCounter, meta, files, if db.None? then None else ParseDb(db.value))
    }

    // Kept by every operation, including one that throws, as long as names are words; ages stay distinct in any case.
    ghost predicate Valid()
      reads this
    {
      WellKept(Model())
    }

    constructor (maxBytes: nat, files: map<string, string>, db: Option<string>)
      ensures Valid() && this.maxBytes == maxBytes && this.files == files && this.db == db
      ensures meta == map[] && usedBytes == 0 && accessCounter == 0
    {
      this.maxBytes := maxBytes;
      this.files := files;
      this.db := db;
      usedBytes, accessCounter, meta := 0, 0, map[];
    }

    // The ids in an unspecified order stand for the hash table's iteration order.
    method PersistMetadata()
      modifies this`db
      ensures db.Some? && IsDbOf(db.value, Model())
      ensures Is(Model(), Persist(old(Model())))
    {
      var out := NatText(accessCounter) + (" " + (NatText(usedBytes) + "\n"));
      ghost var order: seq<string> := [];
      var todo := meta.Keys;
      assert out == DbText(accessCounter, usedBytes, meta, []) by {
        assert "\n" + Lines(meta, []) == "\n";
      }
      while todo != {}
        invariant todo <= meta.Keys
        invariant Distinct(order) && forall id :: id in order <==> id in meta.Keys - todo
        invariant out == DbText(accessCounter, usedBytes, meta, order)
        decreases |todo|
      {
        var id :| id in todo;
        var line := Line(id, meta[id]) + "\n";
        ghost var was := out;
        out := out + line;
        assert out == DbText(accessCounter, usedBytes, meta, order + [id]) by {
          DbTextSnoc(accessCounter, usedBytes, meta, order, id);
        }
        DistinctSnoc(order, id);
        order := order + [id];
        todo := todo - {id};
      }
      if forall id | id in meta :: IsToken(id) {
        DbRoundTrip(accessCounter, usedBytes, meta, order);
      }
      db := Some(out);
    }

    method Touch(hash: string)
      requires Aged(Model())
      modifies this`accessCounter, this`meta
      ensures Model() == Store.Touch(old(Model()), hash) && Aged(Model())
    {
      if hash in meta {
        accessCounter := accessCounter + 1;
        meta := meta[hash := meta[hash].(lastAccess := accessCounter)];
      }
    }

    // The inner loop of enforceLimit: a minimum search in iteration order.
    method FindVictim() returns (victim: string)
      requires meta != map[]
      ensures IsOldest(meta, victim)
    {
      victim :| victim in meta;
      var todo := meta.Keys;
      while todo != {}
        invariant victim in meta && todo <= meta.Keys
        invariant forall g | g in meta.Keys - todo :: meta[victim].lastAccess <= meta[g].lastAccess
        decreases |todo|
      {
        var it :| it in todo;
        if meta[it].lastAccess < meta[victim].lastAccess {
          victim := it;
        }
        todo := todo - {it};
      }
    }

    // The body of enforceLimit's loop.
    method EvictOldest()
      requires Aged(Model()) && meta != map[]
      modifies this`files, this`usedBytes, this`meta
      ensures Model() == Evicted(old(Model()), Oldest(old(meta))) && Aged(Model())
      ensures meta.Keys < old(meta.Keys)
    {
      var victim := FindVictim();
      OldestIsUnique(Model(), victim, Oldest(meta));
      files := files - {victim};
      usedBytes := WrappingSub(usedBytes, meta[victim].size);
      meta := meta - {victim};
    }

    method EnforceLimit()
      requires Aged(Model())
      modifies this
      ensures Is(Model(), Store.EnforceLimit(old(Model()))) && Aged(Model())
      ensures maxBytes == old(maxBytes) && Wrote(old(db), db, Model(), maxBytes != 0)
    {
      if maxBytes == 0 {
        return;
      }
      while usedBytes > maxBytes && meta != map[]
        invariant Aged(Model())
        invariant EvictLoop(Model()) == EvictLoop(old(Model()))
        invariant maxBytes == old(maxBytes) && accessCounter == old(accessCounter)
        decreases meta.Keys
      {
        EvictOldest();
      }
      assert EvictLoop(Model()) == Model();
      PersistMetadata();
    }

    method SetMaxBytes(bytes: nat)
      requires Aged(Model())
      modifies this
      ensures Is(Model(), Step(old(Model()), Limit(bytes))) && Aged(Model())
      ensures Wrote(old(db), db, Model(), bytes != 0)
    {
      maxBytes := bytes;
      assert Model() == old(Model()).(maxBytes := bytes);
      EnforceLimit();
    }

    // The temporary file, and its renaming; "write" is how the file system takes them.
    method WriteFile(hash: string, data: string, write: Write) returns (ok: bool)
      modifies this`files
      ensures ok <==> write.Complete?
      ensures files == match write
                       case OpenFailed => old(files)
                       case RenameFailed => old(files) - {TempName(hash)}
                       case Complete => (old(files) - {TempName(hash)})[hash := data]
    {
      var pathTmp := hash + ".tmp";
      if write.OpenFailed? {
        return false;
      }
      files := files[pathTmp := data];
      if write.RenameFailed? {
        files := files - {pathTmp};
        return false;
      }
      files := (files - {pathTmp})[hash := data];
      ok := true;
    }

    // storeChunk up to its call of enforceLimit, for a non-empty hash.
    method WriteChunk(hash: string, data: string, write: Write) returns (ok: bool)
      modifies this`usedBytes, this`accessCounter, this`meta, this`files
      ensures ok <==> write.Complete?
      ensures Model() == if ok then Written(old(Model()), hash, data) else FailedStore(old(Model()), hash, write)
    {
      if hash in meta {
        usedBytes := if usedBytes >= meta[hash].size then usedBytes - meta[hash].size else 0;
      }
      ok := WriteFile(hash, data, write);
      if !ok {
        return;
      }
      accessCounter := accessCounter + 1;
      meta := meta[hash := ChunkMeta(|data|, accessCounter)];
      usedBytes := usedBytes + |data|;
    }

    // ok is false where the code throws.
    method StoreChunk(hash: string, data: string, write: Write) returns (ok: bool)
      requires Aged(Model())
      modifies this
      ensures Is(Model(), Step(old(Model()), Put(hash, data, write))) && Aged(Model())
      ensures ok <==> ReplyTo(old(Model()), Put(hash, data, write)) == Done
      ensures Wrote(old(db), db, Model(), ok && maxBytes != 0)
    {
      if hash == "" {
        return false;
      }
      WrittenAged(Model(), hash, data, write);
      ok := WriteChunk(hash, data, write);
      if ok {
        EnforceLimit();
      }
    }

    method LoadChunk(hash: string) returns (r: Option<string>)
      requires Aged(Model())
      modifies this
      ensures Is(Model(), Step(old(Model()), Get(hash))) && Aged(Model())
      ensures ReplyTo(old(Model()), Get(hash)) == if r.Some? then Data(r.value) else Threw
      ensures Wrote(old(db), db, Model(), r.Some?)
    {
      if hash !in files {
        return None;
      }
      var data := files[hash];
      Touch(hash);
      PersistMetadata();
      r := Some(data);
    }

    method DeleteChunk(hash: string)
      requires Aged(Model())
      modifies this
      ensures Is(Model(), Step(old(Model()), Del(hash))) && Aged(Model())
      ensures Wrote(old(db), db, Model(), true)
    {
      if hash in meta {
        usedBytes := if usedBytes >= meta[hash].size then usedBytes - meta[hash].size else 0;
        meta := meta - {hash};
      }
      files := files - {hash};
      assert Model() == Removed(old(Model()), hash);
      PersistMetadata();
    }

    method HasChunk(hash: string) returns (b: bool)
      ensures b <==> hash in Model().meta
    {
      b := hash in meta;
    }

    method ListChunks() returns (out: seq<ChunkInfo>)
      ensures forall c | c in out :: c.id in meta && meta[c.id] == ChunkMeta(c.size, c.lastAccess)
      ensures (set c | c in out :: c.id) == meta.Keys && |out| == |meta|
    {
      out := [];
      var todo := meta.Keys;
      while todo != {}
        invariant todo <= meta.Keys && |out| == |meta| - |todo|
        invariant forall c | c in out :: c.id in meta && meta[c.id] == ChunkMeta(c.size, c.lastAccess)
        invariant (set c | c in out :: c.id) == meta.Keys - todo
        decreases |todo|
      {
        var id :| id in todo;
        var info := ChunkInfo(id, meta[id].size, meta[id].lastAccess);
        assert (set c | c in out + [info] :: c.id) == (set c | c in out :: c.id) + {id};
        out := out + [info];
        todo := todo - {id};
      }
    }

    // A scan in the order the directory yields its entries, returned for the caller's proof.
    method RebuildMetadataFromDisk() returns (ghost order: seq<string>)
      modifies this
      ensures Distinct(order) && forall id :: id in order <==> id in old(files)
      ensures Is(Model(), Scanned(old(Model()), order)) && Aged(Model())
      ensures db.Some? && IsDbOf(db.value, Model())
    {
      meta := map[];
      usedBytes := 0;
      accessCounter := 0;
      order := [];
      var todo := files.Keys;
      while todo != {}
        invariant todo <= files.Keys
        invariant Distinct(order) && forall id :: id in order <==> id in files.Keys - todo
        invariant accessCounter == |order| && usedBytes == Total(order, files)
        invariant meta == ScannedMeta(files, order)
        invariant files == old(files) && maxBytes == old(maxBytes) && db == old(db)
        decreases |todo|
      {
        var id :| id in todo;
        assert (order + [id])[..|order|] == order;
        DistinctSnoc(order, id);
        TotalAppend(order, [id], files);
        assert Total([id], files) == |files[id]| + Total([], files) by {
          assert [id][1..] == [];
        }
        accessCounter := accessCounter + 1;
        meta := meta[id := ChunkMeta(|files[id]|, accessCounter)];
        usedBytes := usedBytes + |files[id]|;
        order := order + [id];
        todo := todo - {id};
      }
      ScannedIsAged(Model(), order);
      PersistMetadata();
    }

    // The loop over the lines of metadata.db.
    method ReadEntries(text: string)
      modifies this`meta
      ensures meta == ReadLines(text, old(meta))
    {
      var rest := text;
      var line := ReadLine(rest);
      while line.Some?
        invariant line == ReadLine(rest) && ReadLines(rest, meta) == ReadLines(text, old(meta))
        decreases |rest|
      {
        meta := meta[line.value.id := line.value.m];
        rest := line.value.rest;
        line := ReadLine(rest);
      }
    }

    // init(): restores what metadata.db says, or scans the directory. Ages from metadata.db are what they are.
    method LoadMetadata() returns (ghost order: seq<string>)
      modifies this
      ensures old(Model()).saved.Some? ==>
                Model() == Reloaded(old(Model())) && db == old(db) && (Aged(Model()) ==> Valid())
      ensures old(Model()).saved.None? ==>
                && Distinct(order) && (forall id :: id in order <==> id in old(files))
                && Is(Model(), Scanned(old(Model()), order)) && Aged(Model())
                && db.Some? && IsDbOf(db.value, Model())
    {
      meta := map[];
      usedBytes := 0;
      accessCounter := 0;
      order := [];
      if db.None? {
        order := RebuildMetadataFromDisk();
        return;
      }
      var counter := ReadNat(db.value);
      if counter.Fail? {
        order := RebuildMetadataFromDisk();
        return;
      }
      var used := ReadNat(counter.rest);
      if used.Fail? {
        order := RebuildMetadataFromDisk();
        return;
      }
      accessCounter := counter.value;
      usedBytes := used.value;
      ReadEntries(used.rest);
      ReadLinesReadable(used.rest, map[]);
    }
  }

  lemma DbTextSnoc(counter: nat, used: nat, meta: map<string, ChunkMeta>, order: seq<string>, id: string)
    requires id in meta && forall h | h in order :: h in meta
    ensures forall h | h in order + [id] :: h in meta
    ensures DbText(counter, used, meta, order + [id])
         == DbText(counter, used, meta, order) + (Line(id, meta[id]) + "\n")
  {
    LinesSnoc(meta, order, id);
    var line := Line(id, meta[id]) + "\n";
    var l := Lines(meta, order);
    Assoc("\n", l, line);
    Assoc(NatText(used), "\n" + l, line);
    Assoc(" ", NatText(used) + ("\n" + l), line);
    Assoc(NatText(counter), " " + (NatText(used) + ("\n" + l)), line);
  }

  lemma ScannedIsAged(s: State, order: seq<string>)
    requires Distinct(order) && forall id | id in order :: id in s.files
    requires s.meta == ScannedMeta(s.files, order) && s.counter == |order|
    ensures Aged(s)
  {
    ScannedMembers(s.files, order);
    ScannedClocked(s.files, order);
    forall g, h | g in s.meta && h in s.meta && g != h ensures s.meta[g].lastAccess != s.meta[h].lastAccess {
      ClockedApart(s.meta, order, g, h);
    }
  }
}
