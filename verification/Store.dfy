/**
 * What each StorageManager operation does to the manager and to its directory, as functions from state to state
 * (src/core/storage/storage_manager.cpp). The class in StorageManager.dfy is proved against these functions;
 * Recency.dfy, Lru.dfy and Restart.dfy prove what they amount to.
 */
module Store {
  import opened Basics
  import opened Text

  datatype ChunkMeta = ChunkMeta(size: nat, lastAccess: nat)

  // The contents of a well-formed metadata.db.
  datatype Saved = Saved(counter: nat, used: nat, meta: map<string, ChunkMeta>)

  /** Fields of the manager, the regular files under chunks/, and what metadata.db says (None: absent or malformed). */
  datatype State = State(
    maxBytes: nat, used: nat, counter: nat, meta: map<string, ChunkMeta>,
    files: map<string, string>, saved: Option<Saved>)

  const TWO_TO_64: nat := 0x1_0000_0000_0000_0000

  // Unsigned 64-bit subtraction, which wraps instead of going below zero.
  function WrappingSub(a: nat, b: nat): nat {
    if b <= a then a - b else (a - b) % TWO_TO_64
  }

  // The guarded subtraction used when a chunk is overwritten or deleted.
  function ClampedSub(a: nat, b: nat): nat {
    if b <= a then a - b else 0
  }

  function Persist(s: State): State {
    s.(saved := Some(Saved(s.counter, s.used, s.meta)))
  }

  function Touch(s: State, id: string): State {
    if id !in s.meta then s
    else s.(counter := s.counter + 1, meta := s.meta[id := s.meta[id].(lastAccess := s.counter + 1)])
  }

  ghost predicate IsOldest(meta: map<string, ChunkMeta>, id: string) {
    id in meta && forall g | g in meta :: meta[id].lastAccess <= meta[g].lastAccess
  }

  lemma OldestExists(meta: map<string, ChunkMeta>)
    requires meta != map[]
    ensures exists id :: IsOldest(meta, id)
    decreases |meta|
  {
    var h :| h in meta;
    var rest := meta - {h};
    assert forall g | g in meta :: g == h || g in rest;
    if rest == map[] {
      assert IsOldest(meta, h);
    } else {
      assert rest.Keys < meta.Keys;
      OldestExists(rest);
      var o :| IsOldest(rest, o);
      assert IsOldest(meta, if meta[h].lastAccess <= meta[o].lastAccess then h else o);
    }
  }

  // The least recently used chunk.
  ghost function Oldest(meta: map<string, ChunkMeta>): (id: string)
    requires meta != map[]
    ensures IsOldest(meta, id)
  {
    OldestExists(meta);
    var id :| IsOldest(meta, id);
    id
  }

  function Evicted(s: State, id: string): State
    requires id in s.meta
  {
    s.(used := WrappingSub(s.used, s.meta[id].size), meta := s.meta - {id}, files := s.files - {id})
  }

  ghost function EvictLoop(s: State): State
    decreases |s.meta|
  {
    if s.used > s.maxBytes && s.meta != map[] then
      var t := Evicted(s, Oldest(s.meta));
      assert t.meta.Keys < s.meta.Keys;
      EvictLoop(t)
    else s
  }

  ghost function EnforceLimit(s: State): State {
    if s.maxBytes == 0 then s else Persist(EvictLoop(s))
  }

  function TempName(id: string): string {
    id + ".tmp"
  }

  // How the file system answers the write of a chunk: a temporary file is opened, filled and renamed.
  datatype Write = Complete | OpenFailed | RenameFailed

  // The running total once the size of the chunk about to be replaced or deleted has been taken off.
  function UsedWithout(s: State, id: string): nat {
    if id in s.meta then ClampedSub(s.used, s.meta[id].size) else s.used
  }

  function Written(s: State, id: string, data: string): State {
    s.(used := UsedWithout(s, id) + |data|,
       counter := s.counter + 1,
       meta := s.meta[id := ChunkMeta(|data|, s.counter + 1)],
       files := (s.files - {TempName(id)})[id := data])
  }

  // The two halves of that step: the old chunk taken off the books, the new one put on.
  function Removed(s: State, id: string): State {
    s.(used := UsedWithout(s, id), meta := s.meta - {id}, files := s.files - {id})
  }

  function Added(s: State, id: string, data: string): State {
    s.(used := s.used + |data|, counter := s.counter + 1,
       meta := s.meta[id := ChunkMeta(|data|, s.counter + 1)], files := s.files[id := data])
  }

  lemma WrittenInTwoSteps(s: State, id: string, data: string)
    requires TempName(id) !in s.files
    ensures Written(s, id, data) == Added(Removed(s, id), id, data)
  {
    var m := ChunkMeta(|data|, s.counter + 1);
    assert s.files - {TempName(id)} == s.files;
    assert (s.meta - {id})[id := m] == s.meta[id := m];
    assert (s.files - {id})[id := data] == s.files[id := data];
  }

  // storeChunk, when it returns.
  ghost function StoreChunk(s: State, id: string, data: string): State {
    EnforceLimit(Written(s, id, data))
  }

  // storeChunk, when the file system makes it throw: the running total has already been lowered.
  function FailedStore(s: State, id: string, write: Write): State {
    s.(used := UsedWithout(s, id),
       files := if write.RenameFailed? then s.files - {TempName(id)} else s.files)
  }

  function LoadChunk(s: State, id: string): State {
    if id in s.files then Persist(Touch(s, id)) else s
  }

  function DeleteChunk(s: State, id: string): State {
    Persist(Removed(s, id))
  }

  ghost function SetMaxBytes(s: State, bytes: nat): State {
    EnforceLimit(s.(maxBytes := bytes))
  }

  // A new manager over the same directory, when metadata.db is there and well-formed.
  function Reloaded(s: State): State {
    match s.saved
    case Some(v) => s.(counter := v.counter, used := v.used, meta := v.meta)
    case None => s
  }

  /** Runs of operations **/

  datatype Op =
    | Put(id: string, data: string, write: Write)
    | Get(id: string)
    | Del(id: string)
    | Limit(bytes: nat)

  datatype Reply = Done | Threw | Data(bytes: string)

  ghost function Step(s: State, op: Op): State {
    match op
    case Put(id, data, write) =>
      if id == "" then s
      else if write.Complete? then StoreChunk(s, id, data)
      else FailedStore(s, id, write)
    case Get(id) => LoadChunk(s, id)
    case Del(id) => DeleteChunk(s, id)
    case Limit(bytes) => SetMaxBytes(s, bytes)
  }

  function ReplyTo(s: State, op: Op): Reply {
    match op
    case Put(id, data, write) => if id == "" || !write.Complete? then Threw else Done
    case Get(id) => if id in s.files then Data(s.files[id]) else Threw
    case Del(id) => Done
    case Limit(bytes) => Done
  }

  ghost function Run(s: State, ops: seq<Op>): State {
    if ops == [] then s else Step(Run(s, ops[..|ops| - 1]), ops[|ops| - 1])
  }

  // A fresh manager over an empty directory.
  function Empty(maxBytes: nat): State {
    State(maxBytes, 0, 0, map[], map[], Some(Saved(0, 0, map[])))
  }

  /** What every operation keeps, even one that throws. **/

  // Ids can be told apart by age.
  ghost predicate Aged(s: State) {
    && (forall h | h in s.meta :: s.meta[h].lastAccess <= s.counter)
    && (forall g, h | g in s.meta && h in s.meta && g != h :: s.meta[g].lastAccess != s.meta[h].lastAccess)
  }

  // Ids can be read back from metadata.db.
  ghost predicate Readable(s: State) {
    forall h | h in s.meta :: IsToken(h)
  }

  ghost predicate WellKept(s: State) {
    Aged(s) && Readable(s)
  }

  lemma OldestIsUnique(s: State, g: string, h: string)
    requires Aged(s) && IsOldest(s.meta, g) && IsOldest(s.meta, h)
    ensures g == h
  {
  }

  lemma {:induction false} EvictLoopKeeps(s: State)
    ensures Aged(s) ==> Aged(EvictLoop(s))
    ensures EvictLoop(s).maxBytes == s.maxBytes && EvictLoop(s).counter == s.counter
    ensures EvictLoop(s).saved == s.saved
    ensures EvictLoop(s).used <= s.maxBytes || EvictLoop(s).meta == map[]
    ensures forall h | h in EvictLoop(s).files :: h in s.files && EvictLoop(s).files[h] == s.files[h]
    ensures forall h | h in EvictLoop(s).meta :: h in s.meta && EvictLoop(s).meta[h] == s.meta[h]
    decreases |s.meta|
  {
    if s.used > s.maxBytes && s.meta != map[] {
      var t := Evicted(s, Oldest(s.meta));
      assert t.meta.Keys < s.meta.Keys;
      EvictLoopKeeps(t);
    }
  }

  lemma WrittenAged(s: State, id: string, data: string, write: Write)
    requires Aged(s)
    ensures Aged(Written(s, id, data)) && Aged(FailedStore(s, id, write))
  {
  }

  // Ids stay readable if only words are stored.
  lemma StepKeepsWellKept(s: State, op: Op)
    requires Aged(s)
    ensures Aged(Step(s, op))
    ensures Readable(s) && (op.Put? ==> op.id == "" || IsToken(op.id)) ==> Readable(Step(s, op))
  {
    match op
    case Put(id, data, write) =>
      if id != "" && write.Complete? {
        WrittenAged(s, id, data, write);
        EvictLoopKeeps(Written(s, id, data));
      }
    case Get(id) =>
    case Del(id) =>
    case Limit(bytes) => EvictLoopKeeps(s.(maxBytes := bytes));
  }
}
