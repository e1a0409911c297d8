/** When a peer that restarts behaves as if it had not. */
module Restart {
  import opened Basics
  import opened Text
  import opened Store
  import opened Recency
  import opened StoreRuns

  // metadata.db says what the fields say.
  predicate Synced(s: State) {
    s.saved == Some(Saved(s.counter, s.used, s.meta))
  }

  // Requests as peers pass them on: ids are words, or missing.
  predicate Words(op: Op) {
    op.Put? ==> op.id == "" || IsToken(op.id)
  }

  // Requests during which no write fails.
  predicate Normal(op: Op) {
    Words(op) && (op.Put? ==> op.id == "" || op.write.Complete?)
  }

  /** When metadata.db is up to date **/

  lemma SyncedUnlessUnlimited(s: State, op: Op)
    requires Synced(s) && Normal(op)
    ensures Synced(Step(s, op)) <==> !(op.Put? && op.id != "" && s.maxBytes == 0)
  {
  }

  // Whether, after these requests, nothing has happened that still needs saving.
  ghost predicate NothingUnsaved(s: State, ops: seq<Op>) {
    ops == [] ||
    var before, last := ops[..|ops| - 1], ops[|ops| - 1];
    var t := Run(s, before);
    match last
    case Put(id, _, write) =>
      if id == "" then NothingUnsaved(s, before)
      else if write.Complete? then t.maxBytes != 0
      else NothingUnsaved(s, before) && (id in t.meta ==> t.meta[id].size == 0 || t.used == 0)
    case Get(id) => id in t.files || NothingUnsaved(s, before)
    case Del(_) => true
    case Limit(bytes) => bytes != 0 || NothingUnsaved(s, before)
  }

  // What is saved is never ahead of what is in memory, and never behind in the total alone.
  predicate SavedEarlier(s: State) {
    && s.saved.Some? && s.saved.value.counter <= s.counter
    && (s.saved.value.counter == s.counter && s.saved.value.meta == s.meta ==> s.used <= s.saved.value.used)
  }

  lemma SavedEarlierStep(s: State, op: Op)
    requires SavedEarlier(s)
    ensures SavedEarlier(Step(s, op))
  {
    match op
    case Put(id, data, write) =>
      if id != "" && write.Complete? {
        EvictLoopKeeps(Written(s, id, data));
      }
    case Get(id) =>
    case Del(id) =>
    case Limit(bytes) => EvictLoopKeeps(s.(maxBytes := bytes));
  }

  /**
   * After any run, failing writes included, metadata.db is up to date, and a restart would change nothing, if and only
   * if, since it was last written, no chunk was stored under no limit and no failing write lowered the total.
   */
  lemma {:induction false} SyncedAfterRunIff(s: State, ops: seq<Op>)
    requires Synced(s) && WellKept(s) && forall i | 0 <= i < |ops| :: Words(ops[i])
    ensures Synced(Run(s, ops)) <==> NothingUnsaved(s, ops)
    ensures Reloaded(Run(s, ops)) == Run(s, ops) <==> NothingUnsaved(s, ops)
    ensures SavedEarlier(Run(s, ops)) && WellKept(Run(s, ops))
  {
    if ops != [] {
      var before, last := ops[..|ops| - 1], ops[|ops| - 1];
      SyncedAfterRunIff(s, before);
      var t := Run(s, before);
      assert Words(last);
      SavedEarlierStep(t, last);
      StepKeepsWellKept(t, last);
    }
  }

  datatype Event = Request(op: Op) | Reopen

  ghost function EventStep(s: State, e: Event): State {
    match e
    case Request(op) => Step(s, op)
    case Reopen => Reloaded(s)
  }

  ghost function RunEvents(s: State, events: seq<Event>): State {
    if events == [] then s else EventStep(RunEvents(s, events[..|events| - 1]), events[|events| - 1])
  }

  function Requests(events: seq<Event>): seq<Op> {
    if events == [] then []
    else
      var before := Requests(events[..|events| - 1]);
      match events[|events| - 1]
      case Request(op) => before + [op]
      case Reopen => before
  }

  // Requests that return and never lift the limit.
  ghost predicate LimitedRequests(events: seq<Event>) {
    forall i | 0 <= i < |events| && events[i].Request? ::
      Normal(events[i].op) && (events[i].op.Limit? ==> events[i].op.bytes != 0)
  }

  /**
   * Under a limit, a run with restarts at any operation boundaries is, state for state and so reply for reply, the run
   * without them.
   */
  lemma {:induction false} RestartsAreUnobservable(s: State, events: seq<Event>, next: Op)
    requires Synced(s) && WellKept(s) && s.maxBytes != 0 && LimitedRequests(events)
    ensures RunEvents(s, events) == Run(s, Requests(events))
    ensures Synced(RunEvents(s, events)) && WellKept(RunEvents(s, events)) && RunEvents(s, events).maxBytes != 0
    ensures ReplyTo(RunEvents(s, events), next) == ReplyTo(Run(s, Requests(events)), next)
  {
    if events != [] {
      var before, last := events[..|events| - 1], events[|events| - 1];
      assert forall i | 0 <= i < |before| :: before[i] == events[i];
      RestartsAreUnobservable(s, before, next);
      var t := RunEvents(s, before);
      match last {
        case Request(op) =>
          assert events[|events| - 1].op == op;
          SyncedUnlessUnlimited(t, op);
          StepKeepsWellKept(t, op);
          StepLimit(t, op);
          assert (Requests(before) + [op])[..|Requests(before)|] == Requests(before);
        case Reopen =>
          assert Reloaded(t) == t;
      }
    }
  }

  /**
   * A store followed by a restart with nothing in between. The chunk is indexed afterwards exactly if it was kept under
   * a limit, or, with no limit, had been indexed before; and index and directory still agree exactly if there is a
   * limit, or an unlimited store replaced a chunk of the same size. A chunk new to an unlimited store ends up in the
   * directory and out of the index.
   */
  lemma RestartAfterStore(s: State, id: string, data: string)
    requires Consistent(s) && Synced(s) && IsChunkId(id)
    ensures var t := Reloaded(StoreChunk(s, id, data));
      && (id in t.meta <==> if s.maxBytes == 0 then id in s.meta else |data| <= s.maxBytes)
      && (Agree(t) <==> s.maxBytes != 0 || (id in s.meta && s.meta[id].size == |data|))
      && (s.maxBytes == 0 ==> id in t.files)
  {
    if s.maxBytes != 0 {
      JustStoredSurvives(s, id, data);
      RestartAfterLimitedStore(s, id, data);
    } else {
      var c :| Represents(s, c);
      RestartAfterUnlimitedStore(s, id, data);
    }
  }

  lemma RestartAfterLimitedStore(s: State, id: string, data: string)
    requires Consistent(s) && Synced(s) && IsChunkId(id) && s.maxBytes != 0
    ensures var t := StoreChunk(s, id, data); Reloaded(t).meta == t.meta && Agree(Reloaded(t))
  {
    var c :| Represents(s, c);
    StepRefines(s, c, Put(id, data, Complete));
    SyncedUnlessUnlimited(s, Put(id, data, Complete));
  }

  lemma RestartAfterUnlimitedStore(s: State, id: string, data: string)
    requires Agree(s) && Synced(s) && IsChunkId(id) && s.maxBytes == 0
    ensures var t := Reloaded(StoreChunk(s, id, data));
      && t.meta == s.meta && t.files == s.files[id := data]
      && (Agree(t) <==> id in s.meta && s.meta[id].size == |data|)
  {
    TempNamesAreNotChunkIds(id);
    assert StoreChunk(s, id, data).files == s.files[id := data];
  }
}
