/**
  The LRU cache (code/go/pkg/db/cache.go, LRUCache).

  The cache is first given as a value with one function per operation; the class updates its
  fields in place and is proved to follow those functions.  Main results: the recency list is
  always a duplicate-free ordering of the keys, the size stays bounded, and a larger cache run on
  the same trace hits wherever a smaller one does, with the same value, exactly as long as no plain
  set meets a key that only the larger one holds and that has an expiry there.
 */
module LruCache {

  type Bytes = seq<bv8>

  datatype Option<T> = None | Some(value: T)

  /** `expiry` is absent when the source's time is zero. */
  datatype Item = Item(value: Bytes, expiry: Option<int>)

  /** `lru` lists the keys of `items`, least recently used first. */
  datatype Cache = Cache(maxSize: nat, items: map<Bytes, Item>, lru: seq<Bytes>)

  // ---------- Sequences of keys ----------

  ghost function Elems(s: seq<Bytes>): set<Bytes> {
    set x | x in s
  }

  ghost predicate NoDuplicates(s: seq<Bytes>) {
    forall i, j :: 0 <= i < j < |s| ==> s[i] != s[j]
  }

  function Without(s: seq<Bytes>, k: Bytes): seq<Bytes> {
    if s == [] then []
    else if s[|s| - 1] == k then Without(s[..|s| - 1], k)
    else Without(s[..|s| - 1], k) + [s[|s| - 1]]
  }

  /** The elements of `s` that are in `keys`, in order. */
  ghost function Keep(s: seq<Bytes>, keys: set<Bytes>): seq<Bytes> {
    if s == [] then []
    else if s[|s| - 1] in keys then Keep(s[..|s| - 1], keys) + [s[|s| - 1]]
    else Keep(s[..|s| - 1], keys)
  }

  lemma NoDuplicatesSnoc(s: seq<Bytes>, x: Bytes)
    requires NoDuplicates(s) && x !in s
    ensures NoDuplicates(s + [x])
  {
  }

  lemma {:induction false} WithoutFacts(s: seq<Bytes>, k: Bytes)
    ensures forall x :: x in Without(s, k) <==> x in s && x != k
    ensures k !in s ==> Without(s, k) == s
    ensures NoDuplicates(s) ==> NoDuplicates(Without(s, k)) && |Without(s, k)| == |s| - if k in s then 1 else 0
  {
    if s != [] {
      var init, last := s[..|s| - 1], s[|s| - 1];
      assert s == init + [last];
      WithoutFacts(init, k);
      if NoDuplicates(s) && last != k {
        assert last !in Without(init, k);
        NoDuplicatesSnoc(Without(init, k), last);
      }
    }
  }

  lemma {:induction false} KeepMembers(s: seq<Bytes>, keys: set<Bytes>)
    ensures forall x :: x in Keep(s, keys) <==> x in s && x in keys
  {
    if s != [] {
      assert s == s[..|s| - 1] + [s[|s| - 1]];
      KeepMembers(s[..|s| - 1], keys);
    }
  }

  lemma {:induction false} KeepWithout(s: seq<Bytes>, keys: set<Bytes>, k: Bytes)
    ensures Keep(Without(s, k), keys) == Without(Keep(s, keys), k)
  {
    if s != [] {
      var init, last := s[..|s| - 1], s[|s| - 1];
      KeepWithout(init, keys, k);
      if last != k {
        assert (Without(init, k) + [last])[..|Without(init, k)|] == Without(init, k);
      }
      if last in keys {
        assert (Keep(init, keys) + [last])[..|Keep(init, keys)|] == Keep(init, keys);
      }
    }
  }

  lemma {:induction false} KeepFewer(s: seq<Bytes>, keys: set<Bytes>, k: Bytes)
    ensures Keep(s, keys - {k}) == Without(Keep(s, keys), k)
  {
    if s != [] {
      var init, last := s[..|s| - 1], s[|s| - 1];
      KeepFewer(init, keys, k);
      if last in keys {
        assert (Keep(init, keys) + [last])[..|Keep(init, keys)|] == Keep(init, keys);
      }
    }
  }

  lemma {:induction false} KeepMore(s: seq<Bytes>, keys: set<Bytes>, k: Bytes)
    requires k !in s
    ensures Keep(s, keys + {k}) == Keep(s, keys)
  {
    if s != [] {
      KeepMore(s[..|s| - 1], keys, k);
    }
  }

  lemma KeepSnoc(s: seq<Bytes>, keys: set<Bytes>, k: Bytes)
    ensures Keep(s + [k], keys) == if k in keys then Keep(s, keys) + [k] else Keep(s, keys)
  {
    assert (s + [k])[..|s|] == s;
  }

  lemma {:induction false} KeepFirst(s: seq<Bytes>, keys: set<Bytes>)
    requires s != [] && s[0] in keys
    ensures Keep(s, keys) != [] && Keep(s, keys)[0] == s[0]
  {
    if |s| > 1 {
      KeepFirst(s[..|s| - 1], keys);
    } else {
      assert s[..0] == [];
    }
  }

  // ---------- The operations on values ----------

  function Empty(maxSize: nat): Cache {
    Cache(maxSize, map[], [])
  }

  function Remove(c: Cache, k: Bytes): Cache {
    c.(items := c.items - {k}, lru := Without(c.lru, k))
  }

  /** `k`, which is cached, gets a new item and keeps its place. */
  function Replace(c: Cache, k: Bytes, item: Item): Cache {
    c.(items := c.items[k := item])
  }

  function Touch(c: Cache, k: Bytes): Cache {
    c.(lru := Without(c.lru, k) + [k])
  }

  function Append(c: Cache, k: Bytes, item: Item): Cache {
    c.(items := c.items[k := item], lru := c.lru + [k])
  }

  /** Makes room for one key by dropping the least recently used one, if the cache is full. */
  function MakeRoom(c: Cache): Cache {
    if |c.items| >= c.maxSize && |c.lru| > 0 then Remove(c, c.lru[0]) else c
  }

  function Insert(c: Cache, k: Bytes, item: Item): Cache {
    Append(MakeRoom(c), k, item)
  }

  /** Overwriting a key keeps its expiry. */
  function Set(c: Cache, k: Bytes, v: Bytes): Cache {
    if k in c.items then Touch(Replace(c, k, c.items[k].(value := v)), k)
    else Insert(c, k, Item(v, None))
  }

  function SetWithExpiry(c: Cache, k: Bytes, v: Bytes, expiry: int): Cache {
    if k in c.items then Touch(Replace(c, k, Item(v, Some(expiry))), k)
    else Insert(c, k, Item(v, Some(expiry)))
  }

  predicate Expired(item: Item, now: int) {
    item.expiry.Some? && now > item.expiry.value
  }

  function Get(c: Cache, k: Bytes, now: int): (Cache, Option<Bytes>) {
    if k !in c.items then (c, None)
    else if Expired(c.items[k], now) then (Remove(c, k), None)
    else (Touch(c, k), Some(c.items[k].value))
  }

  // ---------- The representation invariant ----------

  /** A cache of size zero still holds one item. */
  ghost function Capacity(c: Cache): nat {
    if c.maxSize == 0 then 1 else c.maxSize
  }

  ghost predicate Valid(c: Cache) {
    && NoDuplicates(c.lru)
    && Elems(c.lru) == c.items.Keys
    && |c.lru| <= Capacity(c)
  }

  lemma {:induction false} NoDuplicatesCount(s: seq<Bytes>)
    requires NoDuplicates(s)
    ensures |Elems(s)| == |s|
  {
    if s != [] {
      var init, last := s[..|s| - 1], s[|s| - 1];
      assert s == init + [last];
      NoDuplicatesCount(init);
      assert Elems(s) == Elems(init) + {last};
    }
  }

  lemma ItemCount(c: Cache)
    requires Valid(c)
    ensures |c.items| == |c.lru|
  {
    NoDuplicatesCount(c.lru);
    assert |c.items| == |c.items.Keys|;
  }

  lemma RemoveValid(c: Cache, k: Bytes)
    requires Valid(c)
    ensures Valid(Remove(c, k)) && |Remove(c, k).lru| == |c.lru| - if k in c.items then 1 else 0
  {
    WithoutFacts(c.lru, k);
    assert k in c.lru <==> k in Elems(c.lru);
    assert Elems(Without(c.lru, k)) == c.items.Keys - {k};
  }

  lemma TouchValid(c: Cache, k: Bytes)
    requires Valid(c) && k in c.items
    ensures Valid(Touch(c, k)) && |Touch(c, k).lru| == |c.lru|
  {
    WithoutFacts(c.lru, k);
    assert k in c.lru <==> k in Elems(c.lru);
    assert Elems(Without(c.lru, k) + [k]) == c.items.Keys;
  }

  lemma MakeRoomValid(c: Cache)
    requires Valid(c)
    ensures Valid(MakeRoom(c)) && |MakeRoom(c).lru| < Capacity(c)
    ensures MakeRoom(c).items.Keys <= c.items.Keys
  {
    ItemCount(c);
    if |c.lru| > 0 {
      assert c.lru[0] in Elems(c.lru);
      RemoveValid(c, c.lru[0]);
    }
  }

  lemma AppendValid(c: Cache, k: Bytes, item: Item)
    requires Valid(c) && k !in c.items && |c.lru| < Capacity(c)
    ensures Valid(Append(c, k, item)) && k !in c.lru
  {
    assert k !in Elems(c.lru);
    assert Elems(c.lru + [k]) == Elems(c.lru) + {k};
  }

  lemma InsertValid(c: Cache, k: Bytes, item: Item)
    requires Valid(c) && k !in c.items
    ensures Valid(Insert(c, k, item))
  {
    MakeRoomValid(c);
    AppendValid(MakeRoom(c), k, item);
  }

  /** Every operation keeps the recency list a duplicate-free ordering of the keys, within the size. */
  lemma OperationsKeepValid(c: Cache, k: Bytes, v: Bytes, time: int)
    requires Valid(c)
    ensures Valid(Set(c, k, v)) && Valid(SetWithExpiry(c, k, v, time))
    ensures Valid(Get(c, k, time).0) && Valid(Remove(c, k)) && Valid(Empty(c.maxSize))
  {
    RemoveValid(c, k);
    if k in c.items {
      TouchValid(c, k);
      TouchValid(Replace(c, k, c.items[k].(value := v)), k);
      TouchValid(Replace(c, k, Item(v, Some(time))), k);
    } else {
      InsertValid(c, k, Item(v, None));
      InsertValid(c, k, Item(v, Some(time)));
    }
  }

  // ---------- A larger cache includes a smaller one ----------

  datatype Op =
    | SetOp(key: Bytes, value: Bytes)
    | SetExpiryOp(key: Bytes, value: Bytes, expiry: int)
    | GetOp(key: Bytes, now: int)
    | DeleteOp(key: Bytes)
    | ClearOp

  function Step(c: Cache, op: Op): (Cache, Option<Bytes>) {
    match op
    case SetOp(k, v) => (Set(c, k, v), None)
    case SetExpiryOp(k, v, expiry) => (SetWithExpiry(c, k, v, expiry), None)
    case GetOp(k, now) => Get(c, k, now)
    case DeleteOp(k) => (Remove(c, k), None)
    case ClearOp => (Empty(c.maxSize), None)
  }

  function Run(c: Cache, trace: seq<Op>): Cache {
    if trace == [] then c else Step(Run(c, trace[..|trace| - 1]), trace[|trace| - 1]).0
  }

  /** The smaller cache holds some of the larger one's items, in the larger one's order. */
  ghost predicate Within(small: Cache, big: Cache) {
    && Valid(small) && Valid(big)
    && small.lru == Keep(big.lru, small.items.Keys)
    && forall k :: k in small.items ==> k in big.items && small.items[k] == big.items[k]
  }

  /** ... and has no more free room than the larger one. */
  ghost predicate Included(small: Cache, big: Cache) {
    && Within(small, big)
    && small.maxSize <= big.maxSize
    && Capacity(small) - |small.lru| <= Capacity(big) - |big.lru|
  }

  lemma RemoveBoth(small: Cache, big: Cache, k: Bytes)
    requires Within(small, big)
    ensures Within(Remove(small, k), Remove(big, k))
  {
    RemoveValid(small, k);
    RemoveValid(big, k);
    KeepFewer(Without(big.lru, k), small.items.Keys, k);
    KeepWithout(big.lru, small.items.Keys, k);
    WithoutFacts(Without(small.lru, k), k);
    WithoutFacts(small.lru, k);
  }

  lemma RemoveSmall(small: Cache, big: Cache, k: Bytes)
    requires Within(small, big)
    ensures Within(Remove(small, k), big)
  {
    RemoveValid(small, k);
    KeepFewer(big.lru, small.items.Keys, k);
  }

  lemma RemoveBig(small: Cache, big: Cache, k: Bytes)
    requires Within(small, big) && k !in small.items
    ensures Within(small, Remove(big, k))
  {
    RemoveValid(big, k);
    KeepWithout(big.lru, small.items.Keys, k);
    WithoutFacts(small.lru, k);
    assert k !in Elems(small.lru);
  }

  /** The larger cache moves a key to the end, with a new value; so does the smaller one if it has it. */
  lemma Refresh(small: Cache, big: Cache, k: Bytes, item: Item)
    requires Within(small, big) && k in big.items
    ensures k !in small.items ==> Within(small, Touch(Replace(big, k, item), k))
    ensures k in small.items ==> Within(Touch(Replace(small, k, item), k), Touch(Replace(big, k, item), k))
  {
    hide NoDuplicates;
    var keys := small.items.Keys;
    TouchValid(Replace(big, k, item), k);
    KeepWithout(big.lru, keys, k);
    KeepSnoc(Without(big.lru, k), keys, k);
    if k in keys {
      TouchValid(Replace(small, k, item), k);
    } else {
      WithoutFacts(small.lru, k);
      assert k !in Elems(small.lru);
    }
  }

  /** Appending the same new key to a smaller and a larger cache that both have room. */
  lemma AppendBoth(small: Cache, big: Cache, k: Bytes, item: Item)
    requires Within(small, big) && k !in big.items
    requires |small.lru| < Capacity(small) && |big.lru| < Capacity(big)
    ensures Within(Append(small, k, item), Append(big, k, item))
  {
    hide NoDuplicates, Keep;
    AppendValid(big, k, item);
    AppendValid(small, k, item);
    KeepMore(big.lru, small.items.Keys, k);
    KeepSnoc(big.lru, small.items.Keys + {k}, k);
    assert small.items[k := item].Keys == small.items.Keys + {k};
  }

  /** Only the smaller cache gains the key; the larger one had it and moved it to the end. */
  lemma AppendSmall(small: Cache, big: Cache, k: Bytes)
    requires Within(small, big) && k in big.items && k !in small.items
    requires |small.lru| < Capacity(small)
    requires big.lru != [] && big.lru[|big.lru| - 1] == k
    ensures Within(Append(small, k, big.items[k]), big)
  {
    var init := big.lru[..|big.lru| - 1];
    assert big.lru == init + [k];
    KeepMore(init, small.items.Keys, k);
    KeepSnoc(init, small.items.Keys, k);
    KeepSnoc(init, small.items.Keys + {k}, k);
    AppendValid(small, k, big.items[k]);
    assert small.items[k := big.items[k]].Keys == small.items.Keys + {k};
  }

  /** Making room in both: if the larger cache must drop a key, the smaller one must as well. */
  lemma MakeRoomBoth(small: Cache, big: Cache)
    requires Included(small, big)
    ensures Within(MakeRoom(small), MakeRoom(big))
  {
    ItemCount(small);
    ItemCount(big);
    MakeRoomValid(small);
    if |big.items| >= big.maxSize && |big.lru| > 0 {
      var oldest := big.lru[0];
      if oldest in small.items {
        KeepFirst(big.lru, small.items.Keys);
        RemoveBoth(small, big, oldest);
      } else {
        RemoveSmall(small, big, small.lru[0]);
        RemoveBig(MakeRoom(small), big, oldest);
      }
    } else if |small.items| >= small.maxSize && |small.lru| > 0 {
      RemoveSmall(small, big, small.lru[0]);
    }
  }

  /** What both kinds of set do, given the item to store. */
  function PutItem(c: Cache, k: Bytes, item: Item): Cache {
    if k in c.items then Touch(Replace(c, k, item), k) else Insert(c, k, item)
  }

  /** Storing the same item in both keeps the inclusion, whichever of the two must evict. */
  lemma PutKeepsIncluded(small: Cache, big: Cache, k: Bytes, item: Item)
    requires Included(small, big)
    ensures Included(PutItem(small, k, item), PutItem(big, k, item))
  {
    hide Within, NoDuplicates, Keep;
    WithinFacts(small, big, k);
    PutLengths(small, k, item);
    PutLengths(big, k, item);
    if k in big.items {
      Refresh(small, big, k, item);
      if k !in small.items {
        MakeRoomAndAppend(small, PutItem(big, k, item), k);
      }
    } else {
      MakeRoomBoth(small, big);
      MakeRoomLengths(small);
      MakeRoomLengths(big);
      WithinFacts(MakeRoom(small), MakeRoom(big), k);
      AppendBoth(MakeRoom(small), MakeRoom(big), k, item);
    }
  }

  /** The larger cache would keep an old expiry of a key that is new to the smaller one. */
  predicate KeepsExpiry(small: Cache, big: Cache, op: Op) {
    op.SetOp? && op.key !in small.items && op.key in big.items && big.items[op.key].expiry.Some?
  }

  /** A plain set keeps the inclusion exactly when the larger cache keeps no expiry the smaller one lacks. */
  lemma SetKeepsIncluded(small: Cache, big: Cache, k: Bytes, v: Bytes)
    requires Included(small, big)
    ensures Included(Set(small, k, v), Set(big, k, v)) <==> !KeepsExpiry(small, big, SetOp(k, v))
  {
    hide NoDuplicates, Keep, Valid;
    WithinFacts(small, big, k);
    if KeepsExpiry(small, big, SetOp(k, v)) {
      assert k in Set(small, k, v).items && Set(small, k, v).items[k] != Set(big, k, v).items[k];
    } else {
      PutKeepsIncluded(small, big, k, if k in big.items then big.items[k].(value := v) else Item(v, None));
    }
  }

  lemma WithinFacts(small: Cache, big: Cache, k: Bytes)
    requires Within(small, big)
    ensures Valid(small) && Valid(big)
    ensures k in small.items ==> k in big.items && small.items[k] == big.items[k]
  {
  }

  lemma MakeRoomAndAppend(small: Cache, big: Cache, k: Bytes)
    requires Within(small, big) && k in big.items && k !in small.items
    requires big.lru != [] && big.lru[|big.lru| - 1] == k
    ensures Within(Insert(small, k, big.items[k]), big)
  {
    hide Within, Keep;
    WithinFacts(small, big, k);
    MakeRoomValid(small);
    if |small.items| >= small.maxSize && |small.lru| > 0 {
      RemoveSmall(small, big, small.lru[0]);
    }
    AppendSmall(MakeRoom(small), big, k);
  }

  lemma MakeRoomLengths(c: Cache)
    requires Valid(c)
    ensures |MakeRoom(c).lru| == if |c.lru| == Capacity(c) then Capacity(c) - 1 else |c.lru|
    ensures |MakeRoom(c).lru| < Capacity(c) && MakeRoom(c).maxSize == c.maxSize
    ensures MakeRoom(c).items.Keys <= c.items.Keys
  {
    ItemCount(c);
    if |c.lru| > 0 {
      assert c.lru[0] in Elems(c.lru);
      RemoveValid(c, c.lru[0]);
    }
  }

  lemma PutLengths(c: Cache, k: Bytes, item: Item)
    requires Valid(c)
    ensures var c' := PutItem(c, k, item);
      && |c'.lru| == (if k in c.items || |c.lru| == Capacity(c) then |c.lru| else |c.lru| + 1)
      && c'.maxSize == c.maxSize
      && k in c'.items && c'.items[k] == item
      && (k in c.items ==> c'.lru != [] && c'.lru[|c'.lru| - 1] == k)
  {
    MakeRoomLengths(c);
    if k in c.items {
      TouchValid(Replace(c, k, item), k);
    }
  }

  lemma GetKeepsIncluded(small: Cache, big: Cache, k: Bytes, now: int)
    requires Included(small, big)
    ensures Included(Get(small, k, now).0, Get(big, k, now).0)
    ensures Get(small, k, now).1.Some? ==> Get(big, k, now).1 == Get(small, k, now).1
  {
    hide Within, Valid;
    WithinFacts(small, big, k);
    if k in big.items {
      RemoveValid(big, k);
      TouchValid(big, k);
      if k in small.items {
        RemoveValid(small, k);
        RemoveBoth(small, big, k);
        TouchValid(small, k);
        assert Replace(small, k, big.items[k]) == small;
      } else {
        RemoveBig(small, big, k);
      }
      Refresh(small, big, k, big.items[k]);
      assert Replace(big, k, big.items[k]) == big;
    }
  }

  /**
    One operation on both caches keeps the inclusion exactly when it is not such a set, and a hit of
    the smaller is a hit of the larger.
   */
  lemma StepKeepsIncluded(small: Cache, big: Cache, op: Op)
    requires Included(small, big)
    ensures Included(Step(small, op).0, Step(big, op).0) <==> !KeepsExpiry(small, big, op)
    ensures Agrees(Step(small, op).1, Step(big, op).1)
  {
    hide NoDuplicates, Keep;
    match op
    case SetOp(k, v) =>
      SetKeepsIncluded(small, big, k, v);
    case SetExpiryOp(k, v, expiry) =>
      PutKeepsIncluded(small, big, k, Item(v, Some(expiry)));
    case GetOp(k, now) =>
      GetKeepsIncluded(small, big, k, now);
    case DeleteOp(k) =>
      RemoveBoth(small, big, k);
      RemoveValid(small, k);
      RemoveValid(big, k);
    case ClearOp =>
      EmptyIncluded(small.maxSize, big.maxSize);
  }

  /** Whatever the smaller cache answers, the larger one answers too. */
  predicate Agrees(small: Option<Bytes>, big: Option<Bytes>) {
    small.Some? ==> big == small
  }

  ghost predicate AgreesOnAll(small: Cache, big: Cache) {
    forall op :: Agrees(Step(small, op).1, Step(big, op).1)
  }

  /** After a set that keeps an expiry, a read past that expiry hits in the smaller cache only. */
  lemma KeptExpiryShows(small: Cache, big: Cache, op: Op, now: int)
    requires KeepsExpiry(small, big, op) && now > big.items[op.key].expiry.value
    ensures var read := GetOp(op.key, now);
      Step(Step(small, op).0, read).1 == Some(op.value) && Step(Step(big, op).0, read).1 == None
  {
  }

  lemma EmptyIncluded(m: nat, n: nat)
    requires m <= n
    ensures Included(Empty(m), Empty(n))
  {
  }

  /** The trace never stores the key again, and the key stays cached all along. */
  ghost predicate StaysUntouched(c: Cache, k: Bytes, trace: seq<Op>) {
    && k in Run(c, trace).items
    && (trace == [] ||
        (StaysUntouched(c, k, trace[..|trace| - 1])
         && !((trace[|trace| - 1].SetOp? || trace[|trace| - 1].SetExpiryOp?) && trace[|trace| - 1].key == k)))
  }

  lemma StepLeavesItem(c: Cache, op: Op, k: Bytes)
    requires k in c.items && k in Step(c, op).0.items
    requires !((op.SetOp? || op.SetExpiryOp?) && op.key == k)
    ensures Step(c, op).0.items[k] == c.items[k]
  {
    hide Without;
  }

  lemma {:induction false} UntouchedKeepsItem(c: Cache, k: Bytes, trace: seq<Op>)
    requires k in c.items && StaysUntouched(c, k, trace)
    ensures Run(c, trace).items[k] == c.items[k]
  {
    hide Step;
    if trace != [] {
      var init := trace[..|trace| - 1];
      UntouchedKeepsItem(c, k, init);
      StillThere(c, k, init);
      StepLeavesItem(Run(c, init), trace[|trace| - 1], k);
    }
  }

  lemma StillThere(c: Cache, k: Bytes, trace: seq<Op>)
    requires StaysUntouched(c, k, trace)
    ensures k in Run(c, trace).items
  {
  }

  lemma PutsItem(c: Cache, k: Bytes, item: Item)
    ensures k in PutItem(c, k, item).items && PutItem(c, k, item).items[k] == item
  {
  }

  /**
    After a set with expiry, as long as the key is neither evicted nor stored again or removed, a read
    hits with that value exactly up to and including the expiry.
   */
  lemma HitsExactlyUntilExpiry(c: Cache, k: Bytes, v: Bytes, expiry: int, trace: seq<Op>, now: int)
    requires StaysUntouched(SetWithExpiry(c, k, v, expiry), k, trace)
    ensures Get(Run(SetWithExpiry(c, k, v, expiry), trace), k, now).1 == if now <= expiry then Some(v) else None
  {
    hide Run, StaysUntouched, Without;
    PutsItem(c, k, Item(v, Some(expiry)));
    UntouchedKeepsItem(SetWithExpiry(c, k, v, expiry), k, trace);
    StillThere(SetWithExpiry(c, k, v, expiry), k, trace);
  }

  /** A plain set of a key that was not cached never expires. */
  lemma PlainSetNeverExpires(c: Cache, k: Bytes, v: Bytes, trace: seq<Op>, now: int)
    requires k !in c.items && StaysUntouched(Set(c, k, v), k, trace)
    ensures Get(Run(Set(c, k, v), trace), k, now).1 == Some(v)
  {
    hide Run, StaysUntouched, Without;
    PutsItem(c, k, Item(v, None));
    UntouchedKeepsItem(Set(c, k, v), k, trace);
    StillThere(Set(c, k, v), k, trace);
  }

  /** No set of the trace keeps an expiry in the larger cache that the smaller one lacks. */
  ghost predicate NeverKeepsExpiry(m: nat, n: nat, trace: seq<Op>) {
    trace == [] ||
    var init := trace[..|trace| - 1];
    NeverKeepsExpiry(m, n, init) && !KeepsExpiry(Run(Empty(m), init), Run(Empty(n), init), trace[|trace| - 1])
  }

  lemma {:induction false} RunKeepsIncluded(m: nat, n: nat, trace: seq<Op>)
    requires m <= n && NeverKeepsExpiry(m, n, trace)
    ensures Included(Run(Empty(m), trace), Run(Empty(n), trace))
  {
    hide Included, Step, KeepsExpiry;
    if trace == [] {
      EmptyIncluded(m, n);
    } else {
      var init := trace[..|trace| - 1];
      RunKeepsIncluded(m, n, init);
      StepKeepsIncluded(Run(Empty(m), init), Run(Empty(n), init), trace[|trace| - 1]);
    }
  }

  lemma IncludedAgrees(small: Cache, big: Cache)
    requires Included(small, big)
    ensures AgreesOnAll(small, big)
  {
    hide Included, Step, Agrees;
    forall op ensures Agrees(Step(small, op).1, Step(big, op).1) {
      StepKeepsIncluded(small, big, op);
    }
  }

  /**
    At every point of a trace whatever a cache would answer a larger one would answer too, if and
    only if no set of the trace keeps an expiry that the smaller one lacks.
   */
  lemma {:induction false} LargerCacheIncludes(m: nat, n: nat, trace: seq<Op>)
    requires m <= n
    ensures (forall i: nat :: i <= |trace| ==> AgreesOnAll(Run(Empty(m), trace[..i]), Run(Empty(n), trace[..i])))
            <==> NeverKeepsExpiry(m, n, trace)
  {
    hide Included, Step, KeepsExpiry, AgreesOnAll;
    assert trace[..|trace|] == trace;
    if NeverKeepsExpiry(m, n, trace) {
      RunKeepsIncluded(m, n, trace);
      IncludedAgrees(Run(Empty(m), trace), Run(Empty(n), trace));
    }
    if trace != [] {
      var last := |trace| - 1;
      var init := trace[..last];
      LargerCacheIncludes(m, n, init);
      assert forall i: nat :: i <= last ==> init[..i] == trace[..i];
      if KeepsExpiry(Run(Empty(m), init), Run(Empty(n), init), trace[last]) {
        KeptExpiryDisagrees(Run(Empty(m), init), Run(Empty(n), init), trace[last]);
      }
    }
  }

  lemma KeptExpiryDisagrees(small: Cache, big: Cache, op: Op)
    requires KeepsExpiry(small, big, op)
    ensures !AgreesOnAll(Step(small, op).0, Step(big, op).0)
  {
    var now := big.items[op.key].expiry.value + 1;
    KeptExpiryShows(small, big, op, now);
    assert !Agrees(Step(Step(small, op).0, GetOp(op.key, now)).1, Step(Step(big, op).0, GetOp(op.key, now)).1);
  }

  /** Sizes one and two: a key with an expiry is evicted from the smaller cache only, then set again. */
  lemma SmallerCacheCanWin(a: Bytes, b: Bytes, v: Bytes, w: Bytes, expiry: int, now: int)
    requires a != b && now > expiry
    ensures var trace := [SetExpiryOp(a, v, expiry), SetOp(b, v), SetOp(a, w)];
      && Step(Run(Empty(1), trace), GetOp(a, now)).1 == Some(w)
      && Step(Run(Empty(2), trace), GetOp(a, now)).1 == None
  {
    var trace := [SetExpiryOp(a, v, expiry), SetOp(b, v), SetOp(a, w)];
    var item := Item(v, Some(expiry));
    TwoPuts(a, b, v, expiry);
    assert trace[..2] == [SetExpiryOp(a, v, expiry), SetOp(b, v)];
    KeptExpiryShows(Cache(1, map[b := Item(v, None)], [b]), Cache(2, map[a := item, b := Item(v, None)], [a, b]), trace[2], now);
  }

  lemma TwoPuts(a: Bytes, b: Bytes, v: Bytes, expiry: int)
    requires a != b
    ensures var puts := [SetExpiryOp(a, v, expiry), SetOp(b, v)];
      && Run(Empty(1), puts) == Cache(1, map[b := Item(v, None)], [b])
      && Run(Empty(2), puts) == Cache(2, map[a := Item(v, Some(expiry)), b := Item(v, None)], [a, b])
  {
    hide Without;
    var puts, item := [SetExpiryOp(a, v, expiry), SetOp(b, v)], Item(v, Some(expiry));
    assert puts[..1][..0] == [];
    WithoutOnly(a);
    assert Run(Empty(1), puts[..1]) == Cache(1, map[a := item], [a]);
    assert Run(Empty(2), puts[..1]) == Cache(2, map[a := item], [a]);
    assert map[a := item] - {a} == map[];
  }

  lemma WithoutOnly(a: Bytes)
    ensures Without([a], a) == []
  {
    assert [a][..0] == [];
  }

  // ---------- The cache in place ----------

  class LRUCache {
    const maxSize: nat
    var items: map<Bytes, Item>
    var lru: seq<Bytes>

    function View(): Cache
      reads this
    {
      Cache(maxSize, items, lru)
    }

    constructor (maxSize: nat)
      ensures View() == Empty(maxSize) && Valid(View())
    {
      this.maxSize := maxSize;
      items := map[];
      lru := [];
    }

    method Lookup(key: Bytes, now: int) returns (result: Option<Bytes>)
      requires Valid(View())
      modifies this
      ensures (View(), result) == Get(old(View()), key, now) && Valid(View())
    {
      OperationsKeepValid(View(), key, [], now);
      if key !in items {
        return None;
      }
      if Expired(items[key], now) {
        RemoveItem(key);
        return None;
      }
      UpdateLRU(key);
      return Some(items[key].value);
    }

    method Store(key: Bytes, value: Bytes)
      requires Valid(View())
      modifies this
      ensures View() == Set(old(View()), key, value) && Valid(View())
    {
      OperationsKeepValid(View(), key, value, 0);
      if key in items {
        items := items[key := items[key].(value := value)];
        UpdateLRU(key);
        return;
      }
      if |items| >= maxSize {
        if |lru| > 0 {
          RemoveItem(lru[0]);
        }
      }
      items := items[key := Item(value, None)];
      lru := lru + [key];
    }

    method StoreWithExpiry(key: Bytes, value: Bytes, expiry: int)
      requires Valid(View())
      modifies this
      ensures View() == SetWithExpiry(old(View()), key, value, expiry) && Valid(View())
    {
      OperationsKeepValid(View(), key, value, expiry);
      if key in items {
        items := items[key := Item(value, Some(expiry))];
        UpdateLRU(key);
        return;
      }
      if |items| >= maxSize {
        if |lru| > 0 {
          RemoveItem(lru[0]);
        }
      }
      items := items[key := Item(value, Some(expiry))];
      lru := lru + [key];
    }

    method Delete(key: Bytes)
      requires Valid(View())
      modifies this
      ensures View() == Remove(old(View()), key) && Valid(View())
    {
      OperationsKeepValid(View(), key, [], 0);
      RemoveItem(key);
    }

    method Clear()
      modifies this
      ensures View() == Empty(maxSize) && Valid(View())
    {
      items := map[];
      lru := [];
    }

    method RemoveItem(key: Bytes)
      requires NoDuplicates(lru)
      modifies this
      ensures View() == Remove(old(View()), key)
    {
      items := items - {key};
      for i := 0 to |lru|
        invariant key !in lru[..i]
        invariant lru == old(lru) && items == old(items) - {key}
      {
        if lru[i] == key {
          CutAt(lru, i);
          lru := lru[..i] + lru[i + 1..];
          return;
        }
      }
      assert lru[..|lru|] == lru;
      WithoutFacts(lru, key);
    }

    method UpdateLRU(key: Bytes)
      requires NoDuplicates(lru) && key in lru
      modifies this`lru
      ensures lru == Without(old(lru), key) + [key]
    {
      for i := 0 to |lru|
        invariant key !in lru[..i]
        invariant lru == old(lru)
      {
        if lru[i] == key {
          CutAt(lru, i);
          lru := lru[..i] + lru[i + 1..];
          lru := lru + [key];
          return;
        }
      }
      assert false;
    }
  }

  /** In a list without duplicates, removing a key is cutting out its one position. */
  lemma {:induction false} CutAt(s: seq<Bytes>, i: nat)
    requires NoDuplicates(s) && i < |s|
    ensures s[..i] + s[i + 1..] == Without(s, s[i])
  {
    var init, last := s[..|s| - 1], s[|s| - 1];
    if i == |s| - 1 {
      WithoutFacts(init, last);
    } else {
      CutAt(init, i);
      assert init[..i] == s[..i] && init[i + 1..] + [last] == s[i + 1..];
    }
  }
}
