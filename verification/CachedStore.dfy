/**
  The write-through cache in front of a store (code/go/pkg/db/cache.go, CachedDatabase).

  Every operation is answered exactly as the uncached store would answer it, whatever the cache
  size and evictions, as long as each cached entry equals the store's.  The store of filedb.go
  changes its map before a disk operation that may fail, and the cache is then left alone; the
  theorems say exactly which failures leave a stale entry behind.
 */
module CachedStore {
  import L = LruCache
  import F = FileStore

  type Bytes = seq<bv8>

  datatype Cached = Cached(db: F.Db, cache: L.Cache)

  datatype Op =
    | Put(key: Bytes, value: Bytes, diskOk: bool)
    | Get(key: Bytes)
    | Has(key: Bytes)
    | Delete(key: Bytes, diskOk: bool)
    | Write(batch: F.Batch, failure: F.Option<set<Bytes>>)
    | ClearCache
    | Close

  /** What the store does on its own. */
  function StoreStep(db: F.Db, op: Op): (F.Db, F.Reply) {
    match op
    case Put(k, v, diskOk) => F.Put(db, k, v, diskOk)
    case Get(k) => (db, F.Get(db, k))
    case Has(k) => (db, F.Has(db, k))
    case Delete(k, diskOk) => F.Delete(db, k, diskOk)
    case Write(b, failure) => F.Write(db, b, failure)
    case ClearCache => (db, F.Done)
    case Close => (db.(closed := true), F.Done)
  }

  function CachedStep(s: Cached, op: Op): (Cached, F.Reply) {
    match op
    case Put(k, v, diskOk) =>
      var (db, reply) := F.Put(s.db, k, v, diskOk);
      (Cached(db, if reply.Done? then L.Set(s.cache, k, v) else s.cache), reply)
    case Get(k) =>
      var (cache, hit) := L.Get(s.cache, k, 0);
      if hit.Some? then (Cached(s.db, cache), F.Value(hit.value)) else
        var reply := F.Get(s.db, k);
        (Cached(s.db, if reply.Value? then L.Set(cache, k, reply.value) else cache), reply)
    case Has(k) =>
      var (cache, hit) := L.Get(s.cache, k, 0);
      (Cached(s.db, cache), if hit.Some? then F.Found(true) else F.Has(s.db, k))
    case Delete(k, diskOk) =>
      var (db, reply) := F.Delete(s.db, k, diskOk);
      (Cached(db, if reply.Done? then L.Remove(s.cache, k) else s.cache), reply)
    case Write(b, failure) =>
      var (db, reply) := F.Write(s.db, b, failure);
      (Cached(db, if reply.Done? then L.Empty(s.cache.maxSize) else s.cache), reply)
    case ClearCache => (s.(cache := L.Empty(s.cache.maxSize)), F.Done)
    case Close => (Cached(s.db.(closed := true), L.Empty(s.cache.maxSize)), F.Done)
  }

  /** The cache is well formed and, as nothing here sets an expiry, its items never expire. */
  ghost predicate Sound(cache: L.Cache) {
    L.Valid(cache) && forall k :: k in cache.items ==> cache.items[k].expiry.None?
  }

  /** Every cached entry is the store's entry, and a closed store has nothing cached. */
  ghost predicate Coherent(s: Cached) {
    && Sound(s.cache)
    && (forall k :: k in s.cache.items ==> k in s.db.data && s.cache.items[k].value == s.db.data[k])
    && (s.db.closed ==> s.cache.items.Keys == {})
  }

  /** The failures that leave a stale entry: the map has changed under a cached key, the cache has not. */
  ghost predicate LeavesStale(s: Cached, op: Op) {
    && !s.db.closed
    && match op
       case Put(k, v, diskOk) => !diskOk && k in s.cache.items && s.cache.items[k].value != v
       case Delete(k, diskOk) => !diskOk && k in s.cache.items
       case Write(b, failure) =>
         failure.Some? && exists k :: k in s.cache.items && StaleAfterWrite(b, failure.value, k, s.cache.items[k].value)
       case _ => false
  }

  predicate StaleAfterWrite(b: F.Batch, written: set<Bytes>, k: Bytes, cached: Bytes) {
    if k in b.puts && k in written then b.puts[k] != cached else k in b.dels
  }

  // ---------- What the cache operations do to the cached items ----------

  lemma SetItems(c: L.Cache, k: Bytes, v: Bytes)
    requires Sound(c)
    ensures var c' := L.Set(c, k, v);
      && Sound(c')
      && c'.maxSize == c.maxSize
      && k in c'.items && c'.items[k].value == v
      && forall j :: j in c'.items && j != k ==> j in c.items && c'.items[j] == c.items[j]
  {
    hide L.Valid, L.Without;
    L.OperationsKeepValid(c, k, v, 0);
  }

  lemma GetItems(c: L.Cache, k: Bytes)
    requires Sound(c)
    ensures var (c', hit) := L.Get(c, k, 0);
      && Sound(c') && c'.items == c.items
      && hit == if k in c.items then L.Some(c.items[k].value) else L.None
  {
    L.OperationsKeepValid(c, k, [], 0);
  }

  lemma RemoveItems(c: L.Cache, k: Bytes)
    requires Sound(c)
    ensures Sound(L.Remove(c, k)) && L.Remove(c, k).items == c.items - {k}
    ensures Sound(L.Empty(c.maxSize))
  {
    L.OperationsKeepValid(c, k, [], 0);
  }

  lemma CacheFacts(s: Cached, op: Op)
    requires Sound(s.cache)
    ensures Sound(L.Empty(s.cache.maxSize)) && L.Empty(s.cache.maxSize).items == map[]
    ensures Sound(CachedStep(s, op).0.cache)
  {
    hide Sound, L.Set, L.Remove, L.Valid;
    RemoveItems(s.cache, []);
    match op
    case Put(k, v, _) => SetItems(s.cache, k, v);
    case Get(k) =>
      GetItems(s.cache, k);
      var reply := F.Get(s.db, k);
      if reply.Value? {
        SetItems(L.Get(s.cache, k, 0).0, k, reply.value);
      }
    case Has(k) => GetItems(s.cache, k);
    case Delete(k, _) => RemoveItems(s.cache, k);
    case _ =>
  }

  /** What is put or read is cached, what is deleted is not, and nothing else gets in. */
  lemma CachesWhatItSees(s: Cached, op: Op)
    requires Sound(s.cache)
    ensures var (s', reply) := CachedStep(s, op);
      && (op.Put? && reply.Done? ==> op.key in s'.cache.items && s'.cache.items[op.key].value == op.value)
      && (op.Get? && reply.Value? ==> op.key in s'.cache.items && s'.cache.items[op.key].value == reply.value)
      && (op.Delete? && reply.Done? ==> op.key !in s'.cache.items)
      && (op.Has? || op.Delete? ==> s'.cache.items.Keys <= s.cache.items.Keys)
      && ((op.Write? && reply.Done?) || op.ClearCache? || op.Close? ==> s'.cache.items == map[])
      && s'.cache.maxSize == s.cache.maxSize
  {
    hide L.Set, L.Get, L.Valid, Sound;
    CacheFacts(s, op);
    match op
    case Put(k, v, _) => SetItems(s.cache, k, v);
    case Get(k) =>
      GetItems(s.cache, k);
      GetKeepsSize(s.cache, k);
      var reply := F.Get(s.db, k);
      if reply.Value? {
        SetItems(L.Get(s.cache, k, 0).0, k, reply.value);
      }
    case Has(k) =>
      GetItems(s.cache, k);
      GetKeepsSize(s.cache, k);
    case Delete(k, _) => RemoveItems(s.cache, k);
    case _ =>
  }

  lemma GetKeepsSize(c: L.Cache, k: Bytes)
    ensures L.Get(c, k, 0).0.maxSize == c.maxSize
  {
  }

  // ---------- Transparency ----------

  /** From a coherent state every operation is answered as the store alone would answer it. */
  lemma SameReply(s: Cached, op: Op)
    requires Coherent(s)
    ensures CachedStep(s, op).0.db == StoreStep(s.db, op).0
    ensures CachedStep(s, op).1 == StoreStep(s.db, op).1
  {
    hide L.Set, L.Remove, L.Valid, L.Get;
    match op
    case Get(k) => GetItems(s.cache, k);
    case Has(k) => GetItems(s.cache, k);
    case _ =>
  }

  /** A step keeps the state coherent exactly when it is not one of the failures above. */
  lemma CoherentUnlessStale(s: Cached, op: Op)
    requires Coherent(s)
    ensures Coherent(CachedStep(s, op).0) <==> !LeavesStale(s, op)
  {
    CacheFacts(s, op);
    match op
    case Put(k, v, diskOk) =>
      PutCase(s, k, v, diskOk);
    case Get(k) =>
      GetCase(s, k);
    case Has(k) =>
      GetItems(s.cache, k);
    case Delete(k, diskOk) =>
      RemoveItems(s.cache, k);
    case Write(b, failure) =>
      WriteCase(s, b, failure);
    case ClearCache =>
    case Close =>
  }

  lemma PutCase(s: Cached, k: Bytes, v: Bytes, diskOk: bool)
    requires Coherent(s)
    ensures Coherent(CachedStep(s, Put(k, v, diskOk)).0) <==> !LeavesStale(s, Put(k, v, diskOk))
  {
    hide L.Set, Sound;
    SetItems(s.cache, k, v);
  }

  lemma GetCase(s: Cached, k: Bytes)
    requires Coherent(s)
    ensures Coherent(CachedStep(s, Get(k)).0)
  {
    hide L.Set, L.Get, Sound;
    GetItems(s.cache, k);
    var reply := F.Get(s.db, k);
    if reply.Value? {
      SetItems(L.Get(s.cache, k, 0).0, k, reply.value);
    }
  }

  lemma WriteCase(s: Cached, b: F.Batch, failure: F.Option<set<Bytes>>)
    requires Coherent(s)
    ensures Coherent(CachedStep(s, Write(b, failure)).0) <==> !LeavesStale(s, Write(b, failure))
  {
    hide Sound;
    RemoveItems(s.cache, []);
    if !s.db.closed && failure.Some? {
      var data := F.PartlyApplied(s.db.data, b, failure.value);
      forall k | k in s.cache.items
        ensures (k in data && s.cache.items[k].value == data[k])
                <==> !StaleAfterWrite(b, failure.value, k, s.cache.items[k].value)
      {
      }
    }
  }

  /** A state that is not coherent answers some read differently from the store. */
  lemma IncoherenceShows(s: Cached)
    requires Sound(s.cache) && !Coherent(s)
    ensures exists k :: CachedStep(s, Get(k)).1 != StoreStep(s.db, Get(k)).1
  {
    var k :| k in s.cache.items && (s.db.closed || k !in s.db.data || s.cache.items[k].value != s.db.data[k]);
    GetItems(s.cache, k);
    assert CachedStep(s, Get(k)).1 != StoreStep(s.db, Get(k)).1;
  }

  /** After any step: all reads agree with the store if and only if the step left nothing stale. */
  lemma TransparentIffNotStale(s: Cached, op: Op)
    requires Coherent(s)
    ensures var s' := CachedStep(s, op).0;
      (forall k :: CachedStep(s', Get(k)).1 == StoreStep(s'.db, Get(k)).1) <==> !LeavesStale(s, op)
  {
    hide LeavesStale, Coherent, Sound;
    CoherentIsSound(s);
    CoherentUnlessStale(s, op);
    CacheFacts(s, op);
    var s' := CachedStep(s, op).0;
    if Coherent(s') {
      forall k ensures CachedStep(s', Get(k)).1 == StoreStep(s'.db, Get(k)).1 {
        SameReply(s', Get(k));
      }
    } else {
      IncoherenceShows(s');
    }
  }

  lemma CoherentIsSound(s: Cached)
    requires Coherent(s)
    ensures Sound(s.cache)
  {
  }

  // ---------- Whole runs ----------

  function StoreRun(db: F.Db, ops: seq<Op>): F.Db {
    if ops == [] then db else StoreStep(StoreRun(db, ops[..|ops| - 1]), ops[|ops| - 1]).0
  }

  function CachedRun(s: Cached, ops: seq<Op>): Cached {
    if ops == [] then s else CachedStep(CachedRun(s, ops[..|ops| - 1]), ops[|ops| - 1]).0
  }

  ghost predicate NeverStale(s: Cached, ops: seq<Op>) {
    ops == [] || (NeverStale(s, ops[..|ops| - 1]) && !LeavesStale(CachedRun(s, ops[..|ops| - 1]), ops[|ops| - 1]))
  }

  /** No disk operation fails, except that the removal of a key's file may fail when the key is not stored. */
  predicate DiskWorks(db: F.Db, op: Op) {
    db.closed ||
    match op
    case Put(_, _, diskOk) => diskOk
    case Delete(k, diskOk) => diskOk || k !in db.data
    case Write(_, failure) => failure.None?
    case _ => true
  }

  ghost predicate DiskAlwaysWorks(db: F.Db, ops: seq<Op>) {
    ops == [] || (DiskAlwaysWorks(db, ops[..|ops| - 1]) && DiskWorks(StoreRun(db, ops[..|ops| - 1]), ops[|ops| - 1]))
  }

  /** Such a disk never leaves anything stale. */
  lemma {:induction false} WorkingDiskNeverStale(s: Cached, ops: seq<Op>)
    requires Coherent(s) && DiskAlwaysWorks(s.db, ops)
    ensures NeverStale(s, ops)
  {
    if ops != [] {
      var init := ops[..|ops| - 1];
      WorkingDiskNeverStale(s, init);
      RunStaysCoherent(s, init);
    }
  }

  lemma {:induction false} RunStaysCoherent(s: Cached, ops: seq<Op>)
    requires Coherent(s) && NeverStale(s, ops)
    ensures Coherent(CachedRun(s, ops)) && CachedRun(s, ops).db == StoreRun(s.db, ops)
  {
    hide Coherent, LeavesStale, CachedStep, StoreStep;
    if ops != [] {
      var init, last := ops[..|ops| - 1], ops[|ops| - 1];
      RunStaysCoherent(s, init);
      SameReply(CachedRun(s, init), last);
      CoherentUnlessStale(CachedRun(s, init), last);
    }
  }

  /** Every read is answered as the uncached store `db` answers it. */
  ghost predicate ReadsAgree(s: Cached, db: F.Db) {
    forall k :: CachedStep(s, Get(k)).1 == StoreStep(db, Get(k)).1
  }

  /** The cache never changes what happens to the store, coherent or not. */
  lemma {:induction false} SameStore(s: Cached, ops: seq<Op>)
    ensures CachedRun(s, ops).db == StoreRun(s.db, ops)
  {
    if ops != [] {
      SameStore(s, ops[..|ops| - 1]);
    }
  }

  /** At every point of a run all reads agree with the store if and only if no step left anything stale. */
  lemma {:induction false} RunTransparentExactlyWhen(s: Cached, ops: seq<Op>)
    requires Coherent(s)
    ensures (forall n: nat :: n <= |ops| ==> ReadsAgree(CachedRun(s, ops[..n]), StoreRun(s.db, ops[..n]))) <==> NeverStale(s, ops)
  {
    hide Coherent, LeavesStale, CachedStep, StoreStep, ReadsAgree, StoreRun;
    if ops == [] {
      CoherentReadsAgree(s);
      assert StoreRun(s.db, []) == s.db by {
        SameStore(s, []);
      }
    } else {
      var m := |ops| - 1;
      var init := ops[..m];
      RunTransparentExactlyWhen(s, init);
      assert forall n: nat :: n <= m ==> init[..n] == ops[..n];
      assert ops[..m + 1] == ops;
      SameStore(s, ops);
      if NeverStale(s, init) {
        RunStaysCoherent(s, init);
        LastStep(CachedRun(s, init), ops[m]);
      }
    }
  }

  lemma CoherentReadsAgree(s: Cached)
    requires Coherent(s)
    ensures ReadsAgree(s, s.db)
  {
    forall k ensures CachedStep(s, Get(k)).1 == StoreStep(s.db, Get(k)).1 {
      SameReply(s, Get(k));
    }
  }

  lemma LastStep(s: Cached, op: Op)
    requires Coherent(s)
    ensures ReadsAgree(CachedStep(s, op).0, CachedStep(s, op).0.db) <==> !LeavesStale(s, op)
  {
    hide LeavesStale, Coherent;
    TransparentIffNotStale(s, op);
  }

  /** At every point of a run every operation would be answered as without a cache. */
  ghost predicate AnswersAgree(s: Cached, db: F.Db) {
    forall op :: CachedStep(s, op).1 == StoreStep(db, op).1
  }

  /**
    From an empty cache of any size: at every point of the run every next operation is answered as
    without a cache, if and only if no step left anything stale.
   */
  lemma CacheIsTransparent(db: F.Db, cacheSize: nat, ops: seq<Op>)
    ensures var s := Cached(db, L.Empty(cacheSize));
      (forall n: nat :: n <= |ops| ==> AnswersAgree(CachedRun(s, ops[..n]), StoreRun(db, ops[..n]))) <==> NeverStale(s, ops)
  {
    var s := Cached(db, L.Empty(cacheSize));
    assert Coherent(s);
    hide Coherent, LeavesStale, CachedStep, StoreStep, CachedRun, StoreRun;
    RunTransparentExactlyWhen(s, ops);
    if NeverStale(s, ops) {
      forall n: nat | n <= |ops| ensures AnswersAgree(CachedRun(s, ops[..n]), StoreRun(db, ops[..n])) {
        PrefixNeverStale(s, ops, n);
        RunStaysCoherent(s, ops[..n]);
        CoherentAnswersAgree(CachedRun(s, ops[..n]));
      }
    } else {
      forall n: nat | n <= |ops| && AnswersAgree(CachedRun(s, ops[..n]), StoreRun(db, ops[..n]))
        ensures ReadsAgree(CachedRun(s, ops[..n]), StoreRun(db, ops[..n]))
      {
      }
    }
  }

  lemma CoherentAnswersAgree(s: Cached)
    requires Coherent(s)
    ensures AnswersAgree(s, s.db)
  {
    forall op ensures CachedStep(s, op).1 == StoreStep(s.db, op).1 {
      SameReply(s, op);
    }
  }

  lemma {:induction false} PrefixNeverStale(s: Cached, ops: seq<Op>, n: nat)
    requires NeverStale(s, ops) && n <= |ops|
    ensures NeverStale(s, ops[..n])
  {
    if n < |ops| {
      PrefixNeverStale(s, ops[..|ops| - 1], n);
      assert ops[..|ops| - 1][..n] == ops[..n];
    } else {
      assert ops[..n] == ops;
    }
  }

  /** A delete whose file removal fails: the store has lost the key, the cache still answers it. */
  lemma FailedDeleteShows(k: Bytes, v: Bytes)
    ensures var s := CachedRun(Cached(F.Db(map[], false), L.Empty(1)), [Put(k, v, true), Delete(k, false)]);
      CachedStep(s, Get(k)).1 == F.Value(v) && StoreStep(s.db, Get(k)).1 == F.NotFound
  {
    var s0 := Cached(F.Db(map[], false), L.Empty(1));
    var ops := [Put(k, v, true), Delete(k, false)];
    assert ops[..1] == [Put(k, v, true)] && ops[..1][..0] == [];
    var s1 := CachedRun(s0, ops[..1]);
    assert CachedRun(s0, ops) == CachedStep(s1, Delete(k, false)).0;
    assert CachedRun(s0, ops[..1]) == CachedStep(s0, Put(k, v, true)).0;
    assert s1.cache.items == map[k := L.Item(v, L.None)];
  }

  // ---------- Files that keys share ----------

  type Path = Bytes

  /** A key's file name by `path`, and which files exist. */
  ghost function FilesAfter(path: Bytes -> Path, files: Path -> bool, db: F.Db, op: Op): Path -> bool {
    if db.closed then files else
      match op
      case Put(k, _, _) => p => p == path(k) || files(p)
      case Delete(k, _) => p => p != path(k) && files(p)
      case Write(b, _) => p =>
        (exists k :: k in b.puts && path(k) == p) || (files(p) && forall k :: k in b.dels ==> path(k) != p)
      case _ => files
  }

  /** On a working disk every write succeeds, and a removal fails exactly when its file is not there. */
  ghost predicate DiskFollows(path: Bytes -> Path, files: Path -> bool, db: F.Db, op: Op) {
    db.closed ||
    match op
    case Put(_, _, diskOk) => diskOk
    case Delete(k, diskOk) => diskOk == files(path(k))
    case Write(_, failure) => failure.None?
    case _ => true
  }

  ghost function FilesRun(path: Bytes -> Path, files: Path -> bool, db: F.Db, ops: seq<Op>): Path -> bool {
    if ops == [] then files else
      var init, last := ops[..|ops| - 1], ops[|ops| - 1];
      FilesAfter(path, FilesRun(path, files, db, init), StoreRun(db, init), last)
  }

  ghost predicate DiskFollowsRun(path: Bytes -> Path, files: Path -> bool, db: F.Db, ops: seq<Op>) {
    ops == [] ||
    var init, last := ops[..|ops| - 1], ops[|ops| - 1];
    && DiskFollowsRun(path, files, db, init)
    && DiskFollows(path, FilesRun(path, files, db, init), StoreRun(db, init), last)
  }

  ghost predicate Injective(path: Bytes -> Path) {
    forall j, k :: path(j) == path(k) ==> j == k
  }

  /** Every stored key has its file. */
  ghost predicate Backed(path: Bytes -> Path, files: Path -> bool, db: F.Db) {
    forall k :: k in db.data ==> files(path(k))
  }

  lemma OneFileEachStep(path: Bytes -> Path, files: Path -> bool, db: F.Db, op: Op)
    requires Injective(path) && Backed(path, files, db) && DiskFollows(path, files, db, op)
    ensures Backed(path, FilesAfter(path, files, db, op), StoreStep(db, op).0)
    ensures DiskWorks(db, op)
  {
  }

  lemma {:induction false} OneFileEach(path: Bytes -> Path, files: Path -> bool, db: F.Db, ops: seq<Op>)
    requires Injective(path) && Backed(path, files, db) && DiskFollowsRun(path, files, db, ops)
    ensures Backed(path, FilesRun(path, files, db, ops), StoreRun(db, ops))
    ensures DiskAlwaysWorks(db, ops)
  {
    hide Backed, Injective, FilesAfter, DiskFollows, StoreStep, DiskWorks;
    if ops != [] {
      var init, last := ops[..|ops| - 1], ops[|ops| - 1];
      OneFileEach(path, files, db, init);
      OneFileEachStep(path, FilesRun(path, files, db, init), StoreRun(db, init), last);
    }
  }

  const EMPTY_DB := F.Db(map[], false)

  predicate NoFiles(p: Path) {
    false
  }

  /** Two keys that share a file are put, and deleted one after the other. */
  function SharedFileRun(j: Bytes, k: Bytes, v: Bytes): seq<Op> {
    [Put(j, v, true), Put(k, v, true), Delete(j, true), Delete(k, false)]
  }

  lemma SharedFilePrefixes(j: Bytes, k: Bytes, v: Bytes)
    ensures var ops := SharedFileRun(j, k, v);
      && ops[..3] == [Put(j, v, true), Put(k, v, true), Delete(j, true)]
      && ops[..3][..2] == [Put(j, v, true), Put(k, v, true)]
      && ops[..3][..2][..1] == [Put(j, v, true)]
      && ops[..3][..2][..1][..0] == []
  {
  }

  /** Both keys are written, the first removal takes the file, the second finds none. */
  lemma SharedFileFollows(path: Bytes -> Path, j: Bytes, k: Bytes, v: Bytes)
    requires j != k && path(j) == path(k)
    ensures DiskFollowsRun(path, NoFiles, EMPTY_DB, SharedFileRun(j, k, v))
    ensures StoreRun(EMPTY_DB, SharedFileRun(j, k, v)) == EMPTY_DB
  {
    SharedFilePrefixes(j, k, v);
    var ops := SharedFileRun(j, k, v);
    var one, two, three := ops[..3][..2][..1], ops[..3][..2], ops[..3];
    assert StoreRun(EMPTY_DB, one) == F.Db(map[j := v], false);
    assert StoreRun(EMPTY_DB, two) == F.Db(map[j := v, k := v], false);
    assert StoreRun(EMPTY_DB, three) == F.Db(map[k := v], false);
    assert FilesRun(path, NoFiles, EMPTY_DB, two)(path(j));
    assert !FilesRun(path, NoFiles, EMPTY_DB, three)(path(k));
    assert map[k := v] - {k} == map[];
    assert DiskFollowsRun(path, NoFiles, EMPTY_DB, one);
    assert DiskFollowsRun(path, NoFiles, EMPTY_DB, two);
    assert DiskFollowsRun(path, NoFiles, EMPTY_DB, three);
  }

  /** The last key put is still cached when its removal fails. */
  lemma SharedFileIsCached(j: Bytes, k: Bytes, v: Bytes, cacheSize: nat)
    requires j != k
    ensures var ops, s := SharedFileRun(j, k, v), Cached(EMPTY_DB, L.Empty(cacheSize));
      && !NeverStale(s, ops)
      && CachedStep(CachedRun(s, ops), Get(k)).1 == F.Value(v)
  {
    hide L.Set, L.Remove, L.Get, L.Valid, Sound, L.Empty, NeverStale;
    SharedFilePrefixes(j, k, v);
    var ops, s0 := SharedFileRun(j, k, v), Cached(EMPTY_DB, L.Empty(cacheSize));
    EmptyIsSound(cacheSize);
    var s1 := CachedStep(s0, ops[0]).0;
    SetItems(s0.cache, j, v);
    var s2 := CachedStep(s1, ops[1]).0;
    SetItems(s1.cache, k, v);
    var s3 := CachedStep(s2, ops[2]).0;
    RemoveItems(s2.cache, j);
    assert CachedRun(s0, ops[..3][..2][..1]) == s1;
    assert CachedRun(s0, ops[..3][..2]) == s2;
    assert CachedRun(s0, ops[..3]) == s3;
    assert CachedRun(s0, ops) == CachedStep(s3, ops[3]).0;
    assert s3.cache.items[k].value == v && CachedRun(s0, ops) == Cached(CachedRun(s0, ops).db, s3.cache);
    CachedIsAnswered(s3, k, v);
    LastIsStale(s0, ops);
  }

  lemma CachedIsAnswered(s: Cached, k: Bytes, v: Bytes)
    requires Sound(s.cache) && k in s.cache.items && s.cache.items[k].value == v
    ensures forall db :: CachedStep(Cached(db, s.cache), Get(k)).1 == F.Value(v)
  {
    GetItems(s.cache, k);
  }

  lemma EmptyIsSound(cacheSize: nat)
    ensures Sound(L.Empty(cacheSize))
  {
  }

  lemma LastIsStale(s: Cached, ops: seq<Op>)
    requires ops != [] && LeavesStale(CachedRun(s, ops[..|ops| - 1]), ops[|ops| - 1])
    ensures !NeverStale(s, ops)
  {
  }

  /** The disk works, the second removal finds no file, and the cache still answers the deleted key. */
  lemma SharedFileShows(path: Bytes -> Path, j: Bytes, k: Bytes, v: Bytes, cacheSize: nat)
    requires j != k && path(j) == path(k)
    ensures var ops, s := SharedFileRun(j, k, v), Cached(EMPTY_DB, L.Empty(cacheSize));
      && DiskFollowsRun(path, NoFiles, EMPTY_DB, ops)
      && !NeverStale(s, ops)
      && CachedStep(CachedRun(s, ops), Get(k)).1 == F.Value(v) && StoreStep(StoreRun(EMPTY_DB, ops), Get(k)).1 == F.NotFound
  {
    SharedFileFollows(path, j, k, v);
    SharedFileIsCached(j, k, v, cacheSize);
  }

  /** A working disk leaves nothing stale, whatever is run, if and only if no two keys share a file. */
  lemma WorkingDiskSafeExactlyWhen(path: Bytes -> Path, cacheSize: nat)
    ensures (forall ops :: DiskFollowsRun(path, NoFiles, EMPTY_DB, ops) ==> NeverStale(Cached(EMPTY_DB, L.Empty(cacheSize)), ops))
            <==> Injective(path)
  {
    var s := Cached(EMPTY_DB, L.Empty(cacheSize));
    if Injective(path) {
      assert Coherent(s);
      forall ops | DiskFollowsRun(path, NoFiles, EMPTY_DB, ops) ensures NeverStale(s, ops) {
        OneFileEach(path, NoFiles, EMPTY_DB, ops);
        WorkingDiskNeverStale(s, ops);
      }
    } else {
      var j, k :| path(j) == path(k) && j != k;
      SharedFileShows(path, j, k, [], cacheSize);
    }
  }

  // ---------- The store's file names ----------

  /** Four bytes, into which the first `n` bytes of the key are xored in turn. */
  function SimpleHash(key: Bytes, n: nat): (h: Path)
    requires n <= |key|
    ensures |h| == 4
  {
    if n == 0 then [0, 0, 0, 0] else
      var h := SimpleHash(key, n - 1);
      h[(n - 1) % 4 := h[(n - 1) % 4] ^ key[n - 1]]
  }

  function FileName(key: Bytes): Path {
    SimpleHash(key, |key|)
  }

  method ComputeSimpleHash(data: Bytes) returns (hash: Path)
    ensures hash == FileName(data)
  {
    var buffer := new bv8[4](_ => 0);
    assert buffer[..] == [0, 0, 0, 0];
    for i := 0 to |data|
      invariant buffer[..] == SimpleHash(data, i)
    {
      buffer[i % 4] := buffer[i % 4] ^ data[i];
    }
    return buffer[..];
  }

  lemma {:induction false} SamePrefixSameHash(a: Bytes, b: Bytes, n: nat)
    requires n <= |a| && n <= |b| && a[..n] == b[..n]
    ensures SimpleHash(a, n) == SimpleHash(b, n)
  {
    if n > 0 {
      assert a[n - 1] == a[..n][n - 1] && b[n - 1] == b[..n][n - 1];
      assert a[..n - 1] == a[..n][..n - 1] && b[..n - 1] == b[..n][..n - 1];
      SamePrefixSameHash(a, b, n - 1);
    }
  }

  lemma XorZero(b: bv8)
    ensures b ^ 0 == b && 0 ^ b == b
  {
  }

  lemma XorAssociates(a: bv8, b: bv8, c: bv8)
    ensures (a ^ b) ^ c == a ^ (b ^ c)
  {
  }

  /** A key of four bytes is its own file name. */
  lemma FourBytesNameThemselves(key: Bytes)
    requires |key| == 4
    ensures FileName(key) == key
  {
    forall i | 0 <= i < 4 ensures 0 ^ key[i] == key[i] {
      XorZero(key[i]);
    }
    assert SimpleHash(key, 1) == [key[0], 0, 0, 0];
    assert SimpleHash(key, 2) == [key[0], key[1], 0, 0];
    assert SimpleHash(key, 3) == [key[0], key[1], key[2], 0];
  }

  lemma HashStep(key: Bytes, n: nat)
    requires n < |key|
    ensures var h := SimpleHash(key, n);
      SimpleHash(key, n + 1) == h[n % 4 := h[n % 4] ^ key[n]]
  {
  }

  lemma SameColumn(m: nat, n: nat)
    requires m % 4 == 0
    ensures (m + n) % 4 == n % 4
  {
  }

  lemma NoBytes(key: Bytes)
    ensures SimpleHash(key, 0) == [0, 0, 0, 0]
  {
  }

  /** Whole groups of four bytes are xored into the name of the rest, byte by byte. */
  lemma {:induction false} GroupsAreXored(a: Bytes, b: Bytes, n: nat)
    requires |a| % 4 == 0 && n <= |b|
    ensures forall j :: 0 <= j < 4 ==> SimpleHash(a + b, |a| + n)[j] == FileName(a)[j] ^ SimpleHash(b, n)[j]
  {
    hide SimpleHash;
    if n == 0 {
      assert (a + b)[..|a|] == a == a[..|a|];
      SamePrefixSameHash(a + b, a, |a|);
      NoBytes(b);
      forall j | 0 <= j < 4 ensures FileName(a)[j] ^ 0 == FileName(a)[j] {
        XorZero(FileName(a)[j]);
      }
    } else {
      hide FileName;
      var m := n - 1;
      GroupsAreXored(a, b, m);
      HashStep(b, m);
      HashStep(a + b, |a| + m);
      SameColumn(|a|, m);
      assert (a + b)[|a| + m] == b[m];
      XorAssociates(FileName(a)[m % 4], SimpleHash(b, m)[m % 4], b[m]);
    }
  }

  /** Every key shares its file with the key that has a zero byte more. */
  lemma TrailingZeroSharesFile(key: Bytes)
    ensures FileName(key + [0]) == FileName(key)
  {
    var longer, h := key + [0], SimpleHash(key, |key|);
    SamePrefixSameHash(longer, key, |key|);
    XorZero(h[|key| % 4]);
    assert h[|key| % 4 := h[|key| % 4]] == h;
  }

  /** So the cache in front of this store goes stale on a working disk, whatever its size. */
  lemma FileNamesLeaveStale(key: Bytes, v: Bytes, cacheSize: nat)
    ensures var ops, s := SharedFileRun(key, key + [0], v), Cached(EMPTY_DB, L.Empty(cacheSize));
      && DiskFollowsRun(FileName, NoFiles, EMPTY_DB, ops)
      && CachedStep(CachedRun(s, ops), Get(key + [0])).1 == F.Value(v)
      && StoreStep(StoreRun(EMPTY_DB, ops), Get(key + [0])).1 == F.NotFound
  {
    TrailingZeroSharesFile(key);
    SharedFileShows(FileName, key, key + [0], v, cacheSize);
  }

  // ---------- The cached database in place ----------

  class CachedDatabase {
    const store: F.FileDB
    const cache: L.LRUCache

    function View(): Cached
      reads this, store, cache
    {
      Cached(store.View(), cache.View())
    }

    constructor (store: F.FileDB, cacheSize: nat)
      ensures this.store == store && fresh(cache)
      ensures View() == Cached(store.View(), L.Empty(cacheSize))
      ensures Coherent(View())
    {
      this.store := store;
      cache := new L.LRUCache(cacheSize);
    }

    method PutKey(key: Bytes, value: Bytes, diskOk: bool) returns (reply: F.Reply)
      requires Sound(cache.View())
      modifies store, cache
      ensures (View(), reply) == CachedStep(old(View()), Put(key, value, diskOk)) && Sound(cache.View())
    {
      CacheFacts(View(), Put(key, value, diskOk));
      hide L.Set, L.Remove, L.Valid;
      reply := store.PutKey(key, value, diskOk);
      if !reply.Done? {
        return;
      }
      cache.Store(key, value);
    }

    method GetKey(key: Bytes) returns (reply: F.Reply)
      requires Sound(cache.View())
      modifies cache
      ensures (View(), reply) == CachedStep(old(View()), Get(key)) && Sound(cache.View())
    {
      CacheFacts(View(), Get(key));
      hide L.Set, L.Remove, L.Valid, L.Get;
      var hit := cache.Lookup(key, 0);
      if hit.Some? {
        return F.Value(hit.value);
      }
      reply := F.Get(store.View(), key);
      if !reply.Value? {
        return;
      }
      cache.Store(key, reply.value);
    }

    method HasKey(key: Bytes) returns (reply: F.Reply)
      requires Sound(cache.View())
      modifies cache
      ensures (View(), reply) == CachedStep(old(View()), Has(key)) && Sound(cache.View())
    {
      CacheFacts(View(), Has(key));
      hide L.Set, L.Remove, L.Valid, L.Get;
      var hit := cache.Lookup(key, 0);
      if hit.Some? {
        return F.Found(true);
      }
      return F.Has(store.View(), key);
    }

    method DeleteKey(key: Bytes, diskOk: bool) returns (reply: F.Reply)
      requires Sound(cache.View())
      modifies store, cache
      ensures (View(), reply) == CachedStep(old(View()), Delete(key, diskOk)) && Sound(cache.View())
    {
      CacheFacts(View(), Delete(key, diskOk));
      hide L.Set, L.Remove, L.Valid, L.Get;
      reply := store.DeleteKey(key, diskOk);
      if !reply.Done? {
        return;
      }
      cache.Delete(key);
    }

    method WriteBatch(batch: F.FileBatch, diskOk: Bytes -> bool) returns (reply: F.Reply, ghost failure: F.Option<set<Bytes>>)
      requires Sound(cache.View())
      modifies store, cache
      ensures (View(), reply) == CachedStep(old(View()), Write(batch.View(), failure)) && Sound(cache.View())
      ensures failure.None? <==> forall k :: k in batch.puts ==> diskOk(k)
    {
      CacheFacts(View(), ClearCache);
      hide L.Valid;
      reply, failure := store.WriteBatch(batch, diskOk);
      if !reply.Done? {
        return;
      }
      cache.Clear();
    }

    method ClearAll()
      modifies cache
      ensures View() == CachedStep(old(View()), ClearCache).0 && Sound(cache.View())
    {
      cache.Clear();
    }

    method CloseStore()
      modifies store, cache
      ensures View() == CachedStep(old(View()), Close).0 && Sound(cache.View())
    {
      cache.Clear();
      store.Close();
    }
  }
}
