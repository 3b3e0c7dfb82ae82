/**
  The file-backed store, its batches and the batch builder (code/go/pkg/db/filedb.go and utils.go).

  Only the in-memory map of the store is modelled.  Disk operations appear as outcomes: a put or
  delete changes the map first and may then fail, and a batch write may stop after some of its puts.
  Main result: through a builder of any size limit, with flushes failing and being retried along the
  way, the store ends with exactly the accepted edits applied in order.
 */
module FileStore {

  type Bytes = seq<bv8>

  datatype Option<T> = None | Some(value: T)

  datatype Reply = Done | Value(value: Bytes) | Found(found: bool) | NotFound | Closed | IoError | BatchTooLarge

  type Data = map<Bytes, Bytes>

  datatype Db = Db(data: Data, closed: bool)

  datatype Batch = Batch(puts: map<Bytes, Bytes>, dels: set<Bytes>)

  // ---------- Operations on values ----------

  function Put(db: Db, k: Bytes, v: Bytes, diskOk: bool): (Db, Reply) {
    if db.closed then (db, Closed)
    else (db.(data := db.data[k := v]), if diskOk then Done else IoError)
  }

  function Delete(db: Db, k: Bytes, diskOk: bool): (Db, Reply) {
    if db.closed then (db, Closed)
    else (db.(data := db.data - {k}), if diskOk then Done else IoError)
  }

  function Get(db: Db, k: Bytes): Reply {
    if db.closed then Closed else if k in db.data then Value(db.data[k]) else NotFound
  }

  function Has(db: Db, k: Bytes): Reply {
    if db.closed then Closed else Found(k in db.data)
  }

  /** An open store finds a key exactly when it has a value for it. */
  lemma HasExactlyWhenGets(db: Db, k: Bytes)
    ensures !db.closed ==> Has(db, k) == Found(Get(db, k).Value?) && (Get(db, k).Value? || Get(db, k).NotFound?)
  {
  }

  /** A closed store refuses everything and stays as it is. */
  lemma ClosedRefuses(db: Db, k: Bytes, v: Bytes, diskOk: bool, b: Batch, failure: Option<set<Bytes>>)
    requires db.closed
    ensures Get(db, k) == Closed && Has(db, k) == Closed
    ensures Put(db, k, v, diskOk) == (db, Closed) && Delete(db, k, diskOk) == (db, Closed) && Write(db, b, failure) == (db, Closed)
  {
  }

  /** What every read gives after every change of an open store, whether or not the disk worked. */
  lemma ReadAfterWrite(db: Db, k: Bytes, v: Bytes, diskOk: bool, b: Batch, failure: Option<set<Bytes>>, j: Bytes)
    requires !db.closed
    ensures Get(Put(db, k, v, diskOk).0, j) == if j == k then Value(v) else Get(db, j)
    ensures Get(Delete(db, k, diskOk).0, j) == if j == k then NotFound else Get(db, j)
    ensures Get(Write(db, b, failure).0, j) ==
            if j in b.puts && (failure.None? || j in failure.value) then Value(b.puts[j])
            else if j in b.dels then NotFound
            else Get(db, j)
    ensures Put(db, k, v, diskOk).1.Done? <==> diskOk
    ensures Delete(db, k, diskOk).1.Done? <==> diskOk
    ensures Write(db, b, failure).1.Done? <==> failure.None?
  {
  }

  function ApplyBatch(data: Data, b: Batch): Data {
    (data - b.dels) + b.puts
  }

  /** All deletions and the puts of `written`: what a write that fails midway leaves behind. */
  function PartlyApplied(data: Data, b: Batch, written: set<Bytes>): Data {
    (data - b.dels) + map k | k in b.puts && k in written :: b.puts[k]
  }

  /** `failure` is absent when every disk write succeeds, and otherwise the keys put before it stopped. */
  function Write(db: Db, b: Batch, failure: Option<set<Bytes>>): (Db, Reply) {
    if db.closed then (db, Closed)
    else if failure.Some? then (db.(data := PartlyApplied(db.data, b, failure.value)), IoError)
    else (db.(data := ApplyBatch(db.data, b)), Done)
  }

  /** The puts of `written` were tried, and the one that failed was the last. */
  ghost predicate StoppedAtFirstFailure(puts: set<Bytes>, written: set<Bytes>, diskOk: Bytes -> bool) {
    written <= puts && exists k :: k in written && !diskOk(k) && forall j :: j in written && j != k ==> diskOk(j)
  }

  // ---------- Batches: the last edit of a key wins ----------

  datatype Edit = PutEdit(key: Bytes, value: Bytes) | DeleteEdit(key: Bytes)

  function ApplyEdit(data: Data, e: Edit): Data {
    match e
    case PutEdit(k, v) => data[k := v]
    case DeleteEdit(k) => data - {k}
  }

  function ApplyEdits(data: Data, edits: seq<Edit>): Data {
    if edits == [] then data else ApplyEdit(ApplyEdits(data, edits[..|edits| - 1]), edits[|edits| - 1])
  }

  const EMPTY_BATCH := Batch(map[], {})

  function AddToBatch(b: Batch, e: Edit): Batch {
    match e
    case PutEdit(k, v) => Batch(b.puts[k := v], b.dels - {k})
    case DeleteEdit(k) => Batch(b.puts - {k}, b.dels + {k})
  }

  function Collect(edits: seq<Edit>): Batch {
    if edits == [] then EMPTY_BATCH else AddToBatch(Collect(edits[..|edits| - 1]), edits[|edits| - 1])
  }

  function BatchLen(b: Batch): nat {
    |b.puts| + |b.dels|
  }

  lemma AddToBatchMeaning(data: Data, b: Batch, e: Edit)
    ensures ApplyBatch(data, AddToBatch(b, e)) == ApplyEdit(ApplyBatch(data, b), e)
  {
  }

  /** Writing a batch equals applying its edits one by one, and no key is both put and deleted. */
  lemma {:induction false} BatchMeansItsEdits(data: Data, edits: seq<Edit>)
    ensures ApplyBatch(data, Collect(edits)) == ApplyEdits(data, edits)
    ensures Collect(edits).puts.Keys !! Collect(edits).dels
  {
    if edits == [] {
      assert ApplyBatch(data, EMPTY_BATCH) == data;
    } else {
      BatchMeansItsEdits(data, edits[..|edits| - 1]);
      AddToBatchMeaning(data, Collect(edits[..|edits| - 1]), edits[|edits| - 1]);
    }
  }

  /** Writing a batch again after a partial write gives what one complete write would have given. */
  lemma RetryIsHarmless(data: Data, b: Batch, written: set<Bytes>)
    ensures ApplyBatch(PartlyApplied(data, b, written), b) == ApplyBatch(data, b)
  {
  }

  lemma NoPuts(data: Data, b: Batch)
    ensures PartlyApplied(data, b, {}) == data - b.dels
  {
  }

  lemma OneMorePut(data: Data, b: Batch, written: set<Bytes>, k: Bytes)
    requires k in b.puts
    ensures PartlyApplied(data, b, written + {k}) == PartlyApplied(data, b, written)[k := b.puts[k]]
  {
  }

  lemma AllPuts(data: Data, b: Batch)
    ensures PartlyApplied(data, b, b.puts.Keys) == ApplyBatch(data, b)
  {
    assert (map k | k in b.puts && k in b.puts.Keys :: b.puts[k]) == b.puts;
  }

  lemma EmptyBatchDoesNothing(data: Data, b: Batch)
    requires BatchLen(b) == 0
    ensures ApplyBatch(data, b) == data
  {
    assert b.puts == map[] && b.dels == {};
  }

  // ---------- The builder ----------

  datatype Builder = Builder(db: Db, batch: Batch, size: nat, maxSize: int, autoflush: bool)

  function EditSize(e: Edit): nat {
    match e
    case PutEdit(k, v) => |k| + |v|
    case DeleteEdit(k) => |k|
  }

  function Flush(b: Builder, failure: Option<set<Bytes>>): (Builder, Reply) {
    if BatchLen(b.batch) == 0 then (b, Done) else
      var (db', reply) := Write(b.db, b.batch, failure);
      if reply.Done? then (b.(db := db', batch := EMPTY_BATCH, size := 0), Done) else (b.(db := db'), reply)
  }

  function AddNow(b: Builder, e: Edit): Builder {
    b.(batch := AddToBatch(b.batch, e), size := b.size + EditSize(e))
  }

  predicate Overflows(b: Builder, e: Edit) {
    b.maxSize > 0 && b.size + EditSize(e) > b.maxSize
  }

  function Add(b: Builder, e: Edit, failure: Option<set<Bytes>>): (Builder, Reply) {
    if Overflows(b, e) then
      if b.autoflush then
        var (flushed, reply) := Flush(b, failure);
        if reply.Done? then (AddNow(flushed, e), Done) else (flushed, reply)
      else (b, BatchTooLarge)
    else (AddNow(b, e), Done)
  }

  /** Writing the pending puts would not fail. */
  ghost predicate FlushWorks(b: Builder, diskOk: Bytes -> bool) {
    forall k :: k in b.batch.puts ==> diskOk(k)
  }

  /** What the store will hold once everything pending is written. */
  ghost function Pending(b: Builder): Data {
    ApplyBatch(b.db.data, b.batch)
  }

  lemma FlushMeaning(b: Builder, failure: Option<set<Bytes>>)
    ensures var (b', reply) := Flush(b, failure);
      && Pending(b') == Pending(b)
      && (reply.Done? ==> b'.db.data == Pending(b))
      && (reply.Done? <==> BatchLen(b.batch) == 0 || (!b.db.closed && failure.None?))
  {
    if BatchLen(b.batch) == 0 {
      EmptyBatchDoesNothing(b.db.data, b.batch);
    } else if failure.Some? {
      RetryIsHarmless(b.db.data, b.batch, failure.value);
    }
    EmptyBatchDoesNothing(Pending(b), EMPTY_BATCH);
  }

  /** An accepted edit takes effect on what is pending; a refused one changes nothing of it. */
  lemma AddMeaning(b: Builder, e: Edit, failure: Option<set<Bytes>>)
    ensures var (b', reply) := Add(b, e, failure);
      Pending(b') == if reply.Done? then ApplyEdit(Pending(b), e) else Pending(b)
  {
    FlushMeaning(b, failure);
    AddToBatchMeaning(b.db.data, b.batch, e);
    var flushed := Flush(b, failure).0;
    AddToBatchMeaning(flushed.db.data, flushed.batch, e);
  }

  datatype Step = Step(edit: Edit, failure: Option<set<Bytes>>)

  function Run(b: Builder, steps: seq<Step>): Builder {
    if steps == [] then b else
      Add(Run(b, steps[..|steps| - 1]), steps[|steps| - 1].edit, steps[|steps| - 1].failure).0
  }

  /** The edits of a run that were answered with success. */
  function AcceptedEdits(b: Builder, steps: seq<Step>): seq<Edit> {
    if steps == [] then [] else
      var init, last := steps[..|steps| - 1], steps[|steps| - 1];
      AcceptedEdits(b, init) + if Add(Run(b, init), last.edit, last.failure).1.Done? then [last.edit] else []
  }

  lemma {:induction false} RunMeaning(b: Builder, steps: seq<Step>)
    ensures Pending(Run(b, steps)) == ApplyEdits(Pending(b), AcceptedEdits(b, steps))
  {
    if steps != [] {
      var init, last := steps[..|steps| - 1], steps[|steps| - 1];
      RunMeaning(b, init);
      AddMeaning(Run(b, init), last.edit, last.failure);
      var accepted := AcceptedEdits(b, init);
      assert (accepted + [last.edit])[..|accepted|] == accepted;
      assert accepted + [] == accepted;
    }
  }

  /** Chunking a run into batches of any size, flushes failing or not, preserves its meaning. */
  lemma ChunkingPreservesMeaning(db: Db, maxSize: int, autoflush: bool, steps: seq<Step>, failure: Option<set<Bytes>>)
    ensures var b := Builder(db, EMPTY_BATCH, 0, maxSize, autoflush);
      var (flushed, reply) := Flush(Run(b, steps), failure);
      reply.Done? ==> flushed.db.data == ApplyEdits(db.data, AcceptedEdits(b, steps))
  {
    var b := Builder(db, EMPTY_BATCH, 0, maxSize, autoflush);
    RunMeaning(b, steps);
    EmptyBatchDoesNothing(db.data, EMPTY_BATCH);
    FlushMeaning(Run(b, steps), failure);
  }

  // ---------- What `size` counts ----------

  /** The keys and values of the edits, in bytes. */
  function TotalSize(edits: seq<Edit>): nat {
    if edits == [] then 0 else
      var last := edits[|edits| - 1];
      TotalSize(edits[..|edits| - 1]) + |last.key| + if last.PutEdit? then |last.value| else 0
  }

  /** Whether adding an edit first writes the batch out and starts a new one. */
  predicate FlushedBy(b: Builder, e: Edit, failure: Option<set<Bytes>>) {
    Overflows(b, e) && b.autoflush && BatchLen(b.batch) > 0 && !b.db.closed && failure.None?
  }

  /** The accepted edits since the last time a batch was written out. */
  function PendingEdits(b: Builder, steps: seq<Step>): seq<Edit> {
    if steps == [] then [] else
      var init, last := steps[..|steps| - 1], steps[|steps| - 1];
      var before := Run(b, init);
      (if FlushedBy(before, last.edit, last.failure) then [] else PendingEdits(b, init))
      + if Add(before, last.edit, last.failure).1.Done? then [last.edit] else []
  }

  ghost predicate Holds(b: Builder, pending: seq<Edit>) {
    b.size == TotalSize(pending) && b.batch == Collect(pending)
  }

  lemma HoldsMore(b: Builder, pending: seq<Edit>, e: Edit)
    requires Holds(b, pending)
    ensures Holds(AddNow(b, e), pending + [e])
  {
    assert (pending + [e])[..|pending|] == pending;
  }

  lemma NothingPending(pending: seq<Edit>)
    ensures BatchLen(Collect(pending)) == 0 <==> pending == []
  {
    if pending != [] {
      var last, b := pending[|pending| - 1], Collect(pending);
      assert last.key in b.puts.Keys || last.key in b.dels;
      assert |b.puts| == |b.puts.Keys|;
    }
  }

  lemma AddHolds(b: Builder, pending: seq<Edit>, e: Edit, failure: Option<set<Bytes>>)
    requires Holds(b, pending)
    ensures var (b', reply) := Add(b, e, failure);
      Holds(b', (if FlushedBy(b, e, failure) then [] else pending) + if reply.Done? then [e] else [])
  {
    hide Write, Collect, TotalSize, EditSize;
    NothingPending(pending);
    EmptyHolds();
    HoldsMore(b, pending, e);
    assert pending + [] == pending;
    WriteReply(b.db, b.batch, failure);
    if Overflows(b, e) && b.autoflush {
      HoldsMore(Flush(b, failure).0, if FlushedBy(b, e, failure) then [] else pending, e);
    }
  }

  lemma EmptyHolds()
    ensures Collect([]) == EMPTY_BATCH && TotalSize([]) == 0
  {
  }

  lemma WriteReply(db: Db, b: Batch, failure: Option<set<Bytes>>)
    ensures Write(db, b, failure).1.Done? <==> !db.closed && failure.None?
  {
  }

  /** The builder holds exactly the pending edits, and `size` is their size in bytes. */
  lemma {:induction false} SizeCountsPending(b: Builder, steps: seq<Step>)
    requires b.batch == EMPTY_BATCH && b.size == 0
    ensures Run(b, steps).size == TotalSize(PendingEdits(b, steps))
    ensures Run(b, steps).batch == Collect(PendingEdits(b, steps))
  {
    EmptyHolds();
    if steps != [] {
      hide Add, FlushedBy, TotalSize, Collect;
      var init, last := steps[..|steps| - 1], steps[|steps| - 1];
      SizeCountsPending(b, init);
      AddHolds(Run(b, init), PendingEdits(b, init), last.edit, last.failure);
    }
  }

  /** After an accepted edit the size is within a positive limit, or that edit alone exceeds it. */
  lemma SizeWithinLimit(b: Builder, steps: seq<Step>, e: Edit, failure: Option<set<Bytes>>)
    requires b.batch == EMPTY_BATCH && b.size == 0 && b.maxSize > 0
    ensures var (b', reply) := Add(Run(b, steps), e, failure);
      reply.Done? ==> b'.size <= b.maxSize || b'.size == TotalSize([e]) > b.maxSize
  {
    hide Run, Collect, Write, PendingEdits;
    SizeCountsPending(b, steps);
    NothingPending(PendingEdits(b, steps));
    SettingsStay(b, steps);
    assert [e][..0] == [];
  }

  lemma {:induction false} SettingsStay(b: Builder, steps: seq<Step>)
    ensures Run(b, steps).maxSize == b.maxSize && Run(b, steps).autoflush == b.autoflush
  {
    if steps != [] {
      SettingsStay(b, steps[..|steps| - 1]);
    }
  }

  /** Without auto-flush an edit is refused exactly when it would exceed a positive limit. */
  lemma RefusedExactlyWhen(b: Builder, e: Edit, failure: Option<set<Bytes>>)
    requires !b.autoflush
    ensures Add(b, e, failure).1.BatchTooLarge? <==> b.maxSize > 0 && b.size + TotalSize([e]) > b.maxSize
    ensures !Add(b, e, failure).1.BatchTooLarge? ==> Add(b, e, failure).1.Done?
  {
    assert [e][..0] == [];
  }

  function Edits(steps: seq<Step>): seq<Edit> {
    if steps == [] then [] else Edits(steps[..|steps| - 1]) + [steps[|steps| - 1].edit]
  }

  lemma AddAccepted(b: Builder, e: Edit)
    requires b.autoflush && !b.db.closed
    ensures var (b', reply) := Add(b, e, None);
      reply.Done? && b'.autoflush && !b'.db.closed
  {
  }

  /** With auto-flush, an open store and a working disk nothing is ever refused. */
  lemma {:induction false} NothingRefused(b: Builder, steps: seq<Step>)
    requires b.autoflush && !b.db.closed && forall s :: s in steps ==> s.failure.None?
    ensures !Run(b, steps).db.closed && Run(b, steps).autoflush
    ensures AcceptedEdits(b, steps) == Edits(steps)
  {
    if steps != [] {
      var init, last := steps[..|steps| - 1], steps[|steps| - 1];
      hide Add;
      NothingRefused(b, init);
      assert last in steps;
      AddAccepted(Run(b, init), last.edit);
    }
  }

  // ---------- The store, a batch and the builder in place ----------

  class FileDB {
    var data: Data
    var closed: bool

    function View(): Db
      reads this
    {
      Db(data, closed)
    }

    constructor ()
      ensures View() == Db(map[], false)
    {
      data := map[];
      closed := false;
    }

    method PutKey(key: Bytes, value: Bytes, diskOk: bool) returns (reply: Reply)
      modifies this
      ensures (View(), reply) == Put(old(View()), key, value, diskOk)
    {
      if closed {
        return Closed;
      }
      data := data[key := value];
      return if diskOk then Done else IoError;
    }

    method DeleteKey(key: Bytes, diskOk: bool) returns (reply: Reply)
      modifies this
      ensures (View(), reply) == Delete(old(View()), key, diskOk)
    {
      if closed {
        return Closed;
      }
      data := data - {key};
      return if diskOk then Done else IoError;
    }

    /** Applies the deletions, then the puts, each in whatever order the map iteration gives. */
    method WriteBatch(batch: FileBatch, diskOk: Bytes -> bool) returns (reply: Reply, ghost failure: Option<set<Bytes>>)
      modifies this
      ensures (View(), reply) == Write(old(View()), batch.View(), failure)
      ensures failure.None? <==> forall k :: k in batch.puts ==> diskOk(k)
      ensures !closed && failure.Some? ==> StoppedAtFirstFailure(batch.puts.Keys, failure.value, diskOk)
    {
      hide PartlyApplied, ApplyBatch;
      ghost var b, before := batch.View(), data;
      if closed {
        failure := if forall k :: k in batch.puts ==> diskOk(k) then None else Some({});
        return Closed, failure;
      }
      var dels := batch.dels;
      while dels != {}
        invariant dels <= b.dels && data == before - (b.dels - dels)
        invariant closed == old(closed)
        decreases dels
      {
        var key :| key in dels;
        data := data - {key};
        dels := dels - {key};
      }
      NoPuts(before, b);
      var puts := batch.puts.Keys;
      assert b.puts.Keys - puts == {};
      while puts != {}
        invariant puts <= b.puts.Keys && data == PartlyApplied(before, b, b.puts.Keys - puts)
        invariant forall k :: k in b.puts.Keys - puts ==> diskOk(k)
        invariant closed == old(closed)
        decreases puts
      {
        var key :| key in puts;
        OneMorePut(before, b, b.puts.Keys - puts, key);
        assert b.puts.Keys - (puts - {key}) == (b.puts.Keys - puts) + {key};
        data := data[key := batch.puts[key]];
        puts := puts - {key};
        if !diskOk(key) {
          return IoError, Some(b.puts.Keys - puts);
        }
      }
      AllPuts(before, b);
      assert b.puts.Keys - {} == b.puts.Keys;
      return Done, None;
    }

    method Close()
      modifies this
      ensures View() == old(View()).(closed := true)
    {
      closed := true;
    }
  }

  class FileBatch {
    var puts: map<Bytes, Bytes>
    var dels: set<Bytes>

    function View(): Batch
      reads this
    {
      Batch(puts, dels)
    }

    constructor ()
      ensures View() == EMPTY_BATCH
    {
      puts := map[];
      dels := {};
    }

    method PutKey(key: Bytes, value: Bytes)
      modifies this
      ensures View() == AddToBatch(old(View()), PutEdit(key, value))
    {
      puts := puts[key := value];
      dels := dels - {key};
    }

    method DeleteKey(key: Bytes)
      modifies this
      ensures View() == AddToBatch(old(View()), DeleteEdit(key))
    {
      dels := dels + {key};
      puts := puts - {key};
    }
  }

  class BatchBuilder {
    var batch: FileBatch
    const store: FileDB
    var size: nat
    const maxSize: int
    const autoflush: bool

    function View(): Builder
      reads this, store, batch
    {
      Builder(store.View(), batch.View(), size, maxSize, autoflush)
    }

    constructor (store: FileDB, maxSize: int, autoflush: bool)
      ensures fresh(batch) && this.store == store
      ensures View() == Builder(store.View(), EMPTY_BATCH, 0, maxSize, autoflush)
    {
      batch := new FileBatch();
      this.store, this.maxSize, this.autoflush := store, maxSize, autoflush;
      size := 0;
    }

    method PutKey(key: Bytes, value: Bytes, diskOk: Bytes -> bool) returns (reply: Reply, ghost failure: Option<set<Bytes>>)
      modifies this, store, batch
      ensures batch == old(batch) || fresh(batch)
      ensures (View(), reply) == Add(old(View()), PutEdit(key, value), failure)
      ensures failure.None? <==> FlushWorks(old(View()), diskOk) || !(Overflows(old(View()), PutEdit(key, value)) && autoflush)
    {
      hide ApplyBatch, AddToBatch, PartlyApplied;
      failure := None;
      if maxSize > 0 && size + (|key| + |value|) > maxSize {
        if autoflush {
          reply, failure := FlushAll(diskOk);
          if !reply.Done? {
            return;
          }
        } else {
          return BatchTooLarge, failure;
        }
      }
      batch.PutKey(key, value);
      size := size + (|key| + |value|);
      reply := Done;
    }

    method DeleteKey(key: Bytes, diskOk: Bytes -> bool) returns (reply: Reply, ghost failure: Option<set<Bytes>>)
      modifies this, store, batch
      ensures batch == old(batch) || fresh(batch)
      ensures (View(), reply) == Add(old(View()), DeleteEdit(key), failure)
      ensures failure.None? <==> FlushWorks(old(View()), diskOk) || !(Overflows(old(View()), DeleteEdit(key)) && autoflush)
    {
      hide ApplyBatch, AddToBatch, PartlyApplied;
      failure := None;
      if maxSize > 0 && size + |key| > maxSize {
        if autoflush {
          reply, failure := FlushAll(diskOk);
          if !reply.Done? {
            return;
          }
        } else {
          return BatchTooLarge, failure;
        }
      }
      batch.DeleteKey(key);
      size := size + |key|;
      reply := Done;
    }

    method FlushAll(diskOk: Bytes -> bool) returns (reply: Reply, ghost failure: Option<set<Bytes>>)
      modifies this, store
      ensures batch == old(batch) || fresh(batch)
      ensures (View(), reply) == Flush(old(View()), failure)
      ensures failure.None? <==> FlushWorks(old(View()), diskOk)
    {
      failure := None;
      if |batch.puts| + |batch.dels| == 0 {
        return Done, failure;
      }
      reply, failure := store.WriteBatch(batch, diskOk);
      if !reply.Done? {
        return;
      }
      batch := new FileBatch();
      size := 0;
    }
  }
}
