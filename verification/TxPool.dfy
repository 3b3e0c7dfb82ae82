/**
  The transaction pool (TxPool in code/go/pkg/tx/pool.go): a heap with back-pointers, an index by
  hash and an index by sender and nonce, kept together by every operation.

  The sender index is sound but not complete: a second transaction with the same sender and nonce
  replaces the first one's entry while both stay pooled.
 */
module TxPool {
  import opened TxHeap

  const MAX_POOL_SIZE: nat := 10_000
  const MAX_TTL: int := 7 * 24 * 3600 * 1_000_000_000 // nanoseconds
  const BASE_TX_SIZE: nat := 100
  const MIN_FEE_PER_BYTE: nat := 1
  const UINT64: nat := 0x1_0000_0000_0000_0000

  type ByHash = map<string, Item>
  type Entries = map<Nonce, Item>
  type BySender = map<string, Entries>

  /** The pool's three structures; items are compared as objects. */
  datatype Pool = Pool(pending: seq<Item>, all: ByHash, bySender: BySender)

  // ---------- The pool invariant ----------

  ghost predicate NoDuplicates(s: seq<Item>) {
    forall x :: x in s ==> multiset(s)[x] == 1
  }

  /** `all` and `pending` hold the same items, each under its hash. */
  ghost predicate HashIndex(pending: seq<Item>, all: ByHash) {
    && (forall x :: x in pending ==> x.tx.hash in all && all[x.tx.hash] == x)
    && (forall h :: h in all ==> all[h] in pending && all[h].tx.hash == h)
  }

  /** Every sender entry points to a pooled item of that sender and nonce. */
  ghost predicate SenderIndex(pending: seq<Item>, bySender: BySender) {
    forall a, n :: a in bySender && n in bySender[a] ==>
      bySender[a][n] in pending && bySender[a][n].tx.sender == a && bySender[a][n].tx.nonce == n
  }

  ghost predicate NoEmptySender(bySender: BySender) {
    forall a :: a in bySender ==> bySender[a].Keys != {}
  }

  ghost predicate Queue(pending: seq<Item>, all: ByHash) {
    && NoDuplicates(pending)
    && Heap(pending, |pending|)
    && HashIndex(pending, all)
  }

  ghost predicate Consistent(p: Pool) {
    && Queue(p.pending, p.all)
    && SenderIndex(p.pending, p.bySender)
    && NoEmptySender(p.bySender)
  }

  lemma DownStep(s: seq<Item>, i: nat, n: nat)
    requires n <= |s|
    ensures Down(s, i, n) == if Sinks(s, i, n) then Down(Swapped(s, i, BestChild(s, i, n)), BestChild(s, i, n), n) else s
  {
  }

  // ---------- Removing and adding one item ----------

  /** Deletes the entry of a sender and nonce. */
  function DropEntry(bySender: BySender, sender: string, nonce: Nonce): BySender {
    if sender in bySender then bySender[sender := bySender[sender] - {nonce}] else bySender
  }

  /** Deletes a sender that has no entries left. */
  function DropIfEmpty(bySender: BySender, sender: string): BySender {
    if sender in bySender && bySender[sender].Keys == {} then bySender - {sender} else bySender
  }

  function SetEntry(bySender: BySender, item: Item): BySender {
    var entries: Entries := if item.tx.sender in bySender then bySender[item.tx.sender] else map[];
    bySender[item.tx.sender := entries[item.tx.nonce := item]]
  }

  function Removed(p: Pool, i: nat): Pool
    requires i < |p.pending|
  {
    var tx := p.pending[i].tx;
    Pool(RemoveAt(p.pending, i), p.all - {tx.hash}, DropIfEmpty(DropEntry(p.bySender, tx.sender, tx.nonce), tx.sender))
  }

  function Added(p: Pool, item: Item): Pool {
    Pool(Push(p.pending, item), p.all[item.tx.hash := item], SetEntry(p.bySender, item))
  }

  lemma MembersOfMultiset(s: seq<Item>, m: multiset<Item>)
    requires multiset(s) == m
    ensures forall x :: x in s <==> x in m
  {
    assert forall x :: x in s <==> x in multiset(s);
  }

  lemma RemoveFromQueue(pending: seq<Item>, all: ByHash, i: nat)
    requires i < |pending| && Queue(pending, all)
    ensures Queue(RemoveAt(pending, i), all - {pending[i].tx.hash})
    ensures forall x :: x in RemoveAt(pending, i) <==> x in pending && x != pending[i]
  {
    hide Heap, RemoveAt;
    RemoveAtIsHeap(pending, i);
    OneFewer(pending, pending[i], RemoveAt(pending, i));
    HashIndexShrinks(pending, all, pending[i], RemoveAt(pending, i));
  }

  lemma OneFewer(s: seq<Item>, item: Item, r: seq<Item>)
    requires NoDuplicates(s) && item in s && multiset(r) == multiset(s) - multiset{item}
    ensures NoDuplicates(r)
    ensures forall x :: x in r <==> x in s && x != item
  {
    MembersOfMultiset(r, multiset(s) - multiset{item});
    MembersOfMultiset(s, multiset(s));
  }

  lemma HashIndexShrinks(s: seq<Item>, all: ByHash, item: Item, r: seq<Item>)
    requires HashIndex(s, all) && item in s
    requires forall x :: x in r <==> x in s && x != item
    ensures HashIndex(r, all - {item.tx.hash})
  {
  }

  lemma DropFromSenders(pending: seq<Item>, bySender: BySender, item: Item, rest: seq<Item>)
    requires SenderIndex(pending, bySender)
    requires forall x :: x in rest <==> x in pending && x != item
    ensures SenderIndex(rest, DropEntry(bySender, item.tx.sender, item.tx.nonce))
  {
  }

  /** Removing any position keeps the pool consistent and removes just that item. */
  lemma RemovedConsistent(p: Pool, i: nat)
    requires i < |p.pending| && Consistent(p)
    ensures Consistent(Removed(p, i))
    ensures forall x :: x in Removed(p, i).pending <==> x in p.pending && x != p.pending[i]
  {
    hide Queue, RemoveAt;
    RemoveFromQueue(p.pending, p.all, i);
    DropFromSenders(p.pending, p.bySender, p.pending[i], RemoveAt(p.pending, i));
  }

  lemma AddToQueue(pending: seq<Item>, all: ByHash, item: Item)
    requires Queue(pending, all) && item.tx.hash !in all
    ensures Queue(Push(pending, item), all[item.tx.hash := item])
    ensures forall x :: x in Push(pending, item) <==> x in pending || x == item
    ensures |Push(pending, item)| == |pending| + 1
  {
    hide Heap, Push;
    var r := Push(pending, item);
    PushIsHeap(pending, item);
    assert item !in pending;
    OneMore(pending, item, r);
    HashIndexGrows(pending, all, item, r);
  }

  lemma OneMore(s: seq<Item>, item: Item, r: seq<Item>)
    requires NoDuplicates(s) && item !in s && multiset(r) == multiset(s) + multiset{item}
    ensures NoDuplicates(r)
    ensures forall x :: x in r <==> x in s || x == item
    ensures |r| == |s| + 1
  {
    MembersOfMultiset(r, multiset(s) + multiset{item});
    MembersOfMultiset(s, multiset(s));
    assert |multiset(r)| == |multiset(s)| + 1;
  }

  lemma HashIndexGrows(s: seq<Item>, all: ByHash, item: Item, r: seq<Item>)
    requires HashIndex(s, all) && item.tx.hash !in all
    requires forall x :: x in r <==> x in s || x == item
    ensures HashIndex(r, all[item.tx.hash := item])
  {
  }

  lemma HashIsFresh(p: Pool, item: Item)
    requires Consistent(p) && item.tx.hash !in p.all
    ensures item !in p.pending && Queue(p.pending, p.all)
  {
  }

  lemma AddToSenders(pending: seq<Item>, bySender: BySender, item: Item, more: seq<Item>)
    requires SenderIndex(pending, bySender) && NoEmptySender(bySender)
    requires forall x :: x in more <==> x in pending || x == item
    ensures SenderIndex(more, SetEntry(bySender, item)) && NoEmptySender(SetEntry(bySender, item))
  {
    assert item.tx.nonce in SetEntry(bySender, item)[item.tx.sender];
  }

  /** Adding a transaction whose hash is new keeps the pool consistent and adds just that item. */
  lemma AddedConsistent(p: Pool, item: Item)
    requires Consistent(p) && item.tx.hash !in p.all
    ensures Consistent(Added(p, item))
    ensures forall x :: x in Added(p, item).pending <==> x in p.pending || x == item
  {
    hide Queue, Push;
    AddToQueue(p.pending, p.all, item);
    AddToSenders(p.pending, p.bySender, item, Push(p.pending, item));
  }

  // ---------- When the sender index is complete ----------

  /** Every pooled item is the one indexed under its sender and nonce. */
  ghost predicate Complete(p: Pool) {
    forall x :: x in p.pending ==> IsIndexed(p.bySender, x)
  }

  ghost predicate IsIndexed(bySender: BySender, x: Item) {
    x.tx.sender in bySender && x.tx.nonce in bySender[x.tx.sender] && bySender[x.tx.sender][x.tx.nonce] == x
  }

  ghost predicate SameSlot(x: Item, y: Item) {
    x.tx.sender == y.tx.sender && x.tx.nonce == y.tx.nonce
  }

  lemma SetEntryIndexes(bySender: BySender, item: Item, x: Item)
    ensures IsIndexed(SetEntry(bySender, item), item)
    ensures IsIndexed(bySender, x) && x != item ==> (IsIndexed(SetEntry(bySender, item), x) <==> !SameSlot(x, item))
  {
  }

  lemma DropEntryKeepsOthers(bySender: BySender, item: Item, x: Item)
    ensures IsIndexed(DropIfEmpty(DropEntry(bySender, item.tx.sender, item.tx.nonce), item.tx.sender), x)
            <==> IsIndexed(bySender, x) && !SameSlot(x, item)
  {
    assert IsIndexed(bySender, x) && item.tx.sender == x.tx.sender && item.tx.nonce != x.tx.nonce ==>
        x.tx.nonce in bySender[x.tx.sender] - {item.tx.nonce};
  }

  /** Adding keeps the index complete exactly when no pooled transaction has the sender and nonce already. */
  lemma CompleteUnlessReused(p: Pool, item: Item)
    requires Consistent(p) && Complete(p) && item.tx.hash !in p.all
    ensures Complete(Added(p, item)) <==> forall x :: x in p.pending ==> !SameSlot(x, item)
  {
    AddedConsistent(p, item);
    HashIsFresh(p, item);
    hide Consistent, Push, IsIndexed, SameSlot, SetEntry;
    forall x | x in p.pending ensures IsIndexed(Added(p, item).bySender, x) <==> !SameSlot(x, item) {
      SetEntryIndexes(p.bySender, item, x);
    }
    SetEntryIndexes(p.bySender, item, item);
  }

  /**
    A removal deletes the entry of the removed item's sender and nonce, whichever item it points to:
    another item stays indexed exactly when it was and has a different sender or nonce.
   */
  lemma RemovalDropsSlot(p: Pool, i: nat, x: Item)
    requires Consistent(p) && i < |p.pending|
    requires x in p.pending && x != p.pending[i]
    ensures IsIndexed(Removed(p, i).bySender, x) <==> IsIndexed(p.bySender, x) && !SameSlot(x, p.pending[i])
  {
    hide Consistent, RemoveAt, IsIndexed, DropEntry, DropIfEmpty;
    DropEntryKeepsOthers(p.bySender, p.pending[i], x);
  }

  /** After a removal the index is complete exactly when all other items were indexed, in other slots. */
  lemma CompleteAfterRemoval(p: Pool, i: nat)
    requires Consistent(p) && i < |p.pending|
    ensures Complete(Removed(p, i)) <==>
            forall x :: x in p.pending && x != p.pending[i] ==> IsIndexed(p.bySender, x) && !SameSlot(x, p.pending[i])
  {
    RemovedConsistent(p, i);
    hide Consistent, Removed, IsIndexed, SameSlot;
    forall x | x in p.pending && x != p.pending[i]
      ensures IsIndexed(Removed(p, i).bySender, x) <==> IsIndexed(p.bySender, x) && !SameSlot(x, p.pending[i])
    {
      RemovalDropsSlot(p, i, x);
    }
  }

  /** So a complete index stays complete. */
  lemma RemovalKeepsComplete(p: Pool, i: nat)
    requires Consistent(p) && Complete(p) && i < |p.pending|
    ensures Complete(Removed(p, i))
  {
    CompleteAfterRemoval(p, i);
    hide Consistent, Removed, IsIndexed, SameSlot;
    forall x | x in p.pending && x != p.pending[i] ensures !SameSlot(x, p.pending[i]) {
      OneItemPerSlot(p.bySender, x, p.pending[i]);
    }
  }

  lemma OneItemPerSlot(bySender: BySender, x: Item, y: Item)
    requires IsIndexed(bySender, x) && IsIndexed(bySender, y) && x != y
    ensures !SameSlot(x, y)
  {
  }

  /**
    A reused sender and nonce, and then the removal of the older transaction: the newer one stays
    pooled and is no longer indexed.
   */
  lemma RemovingOldUnindexesNew(p: Pool, i: nat, newer: Item)
    requires Consistent(p) && i < |p.pending| && newer.tx.hash !in p.all && SameSlot(newer, p.pending[i])
    ensures var q := Added(p, newer);
      exists j :: 0 <= j < |q.pending| && q.pending[j] == p.pending[i]
        && IsIndexed(q.bySender, newer) && newer in Removed(q, j).pending && !IsIndexed(Removed(q, j).bySender, newer)
  {
    var q, older := Added(p, newer), p.pending[i];
    AddedConsistent(p, newer);
    HashIsFresh(p, newer);
    SetEntryIndexes(p.bySender, newer, newer);
    hide Consistent, Push, Removed, IsIndexed, SameSlot, SetEntry;
    var j :| 0 <= j < |q.pending| && q.pending[j] == older;
    RemovedConsistent(q, j);
    RemovalDropsSlot(q, j, newer);
  }

  /** A full pool evicts the item that beats everything it keeps, unless something ties with it. */
  lemma FullPoolEvictsTheBest(p: Pool)
    requires Consistent(p) && |p.pending| == 10_000
    requires forall k :: 0 < k < |p.pending| ==> p.pending[k].rank != p.pending[0].rank
    ensures forall x :: x in Removed(p, 0).pending ==> Beats(p.pending[0].rank, x.rank)
  {
    hide Heap, Beats, RemoveAt, Pop;
    EvictsTheBetter(p.pending);
    PopIsRemoveRoot(p.pending);
  }

  /** With a complete index, removal by nonce reaches all of the sender's transactions from that nonce on. */
  lemma CompleteIndexReachesAll(p: Pool, sender: string, nonce: Nonce, x: Item)
    requires SenderIndex(p.pending, p.bySender) && Complete(p) && x in p.pending
    ensures IndexedFrom(p.bySender, sender, nonce, x) <==> x.tx.sender == sender && x.tx.nonce >= nonce
  {
    assert IsIndexed(p.bySender, x);
  }

  /**
    The index holds printed addresses and removal by nonce looks up raw ones: from a complete index it
    reaches a sender's transactions exactly when the raw bytes read as text are the printed address.
   */
  lemma RawAddressReachesExactlyWhen(p: Pool, printed: string, raw: string, nonce: Nonce, x: Item)
    requires SenderIndex(p.pending, p.bySender) && Complete(p)
    requires x in p.pending && x.tx.sender == printed && x.tx.nonce >= nonce
    ensures IndexedFrom(p.bySender, raw, nonce, x) <==> raw == printed
  {
    CompleteIndexReachesAll(p, raw, nonce, x);
  }

  /** In every consistent pool the first pending item precedes all others on the fields. */
  lemma FirstIsBest(p: Pool)
    requires Consistent(p) && p.pending != []
    ensures forall x :: x in p.pending ==> Precedes(p.pending[0].rank, x.rank)
  {
    hide Heap, Precedes, NoDuplicates, HashIndex, SenderIndex;
    forall k | 0 <= k < |p.pending| ensures Precedes(p.pending[0].rank, p.pending[k].rank) {
      RootUnbeaten(p.pending, k);
    }
  }

  // ---------- Listing ----------

  /** How many of `n` pending transactions a request for `maxCount` lists. */
  function Listed(n: nat, maxCount: int): nat {
    if maxCount <= 0 || maxCount > n then n else maxCount
  }

  /** The pool after adding the items in order. */
  function PoolOf(items: seq<Item>): Pool {
    if items == [] then Pool([], map[], map[]) else Added(PoolOf(items[..|items| - 1]), items[|items| - 1])
  }

  ghost predicate DistinctHashes(items: seq<Item>) {
    forall i, j :: 0 <= i < j < |items| ==> items[i].tx.hash != items[j].tx.hash
  }

  lemma {:induction false} PoolOfIsConsistent(items: seq<Item>)
    requires DistinctHashes(items)
    ensures Consistent(PoolOf(items)) && PoolOf(items).pending == PushAll(items)
    ensures forall h :: h in PoolOf(items).all ==> exists i :: 0 <= i < |items| && items[i].tx.hash == h
  {
    hide Consistent, Push, SetEntry;
    if items == [] {
      EmptyIsConsistent();
    } else {
      var init, last := items[..|items| - 1], items[|items| - 1];
      PoolOfIsConsistent(init);
      AddedConsistent(PoolOf(init), last);
      forall h | h in PoolOf(items).all ensures exists i :: 0 <= i < |items| && items[i].tx.hash == h {
        if h == last.tx.hash {
          assert items[|items| - 1].tx.hash == h;
        } else {
          var i :| 0 <= i < |init| && init[i].tx.hash == h;
          assert items[i].tx.hash == h;
        }
      }
    }
  }

  lemma EmptyIsConsistent()
    ensures Consistent(Pool([], map[], map[]))
  {
  }

  lemma SwappedDistinct(items: seq<Item>, i: nat, j: nat)
    requires i < |items| && j < |items| && DistinctHashes(items)
    ensures DistinctHashes(Swapped(items, i, j))
  {
  }

  /**
    Requests to consistent pools of a given size are always answered in order exactly when that size
    is at most two or one or two are requested.  `best` lists as many transactions of different ranks.
   */
  lemma ListedInOrderExactlyWhen(best: seq<Item>, maxCount: int)
    requires Falling(best) && DistinctHashes(best)
    ensures (forall p: Pool | Consistent(p) && |p.pending| == |best| :: Sorted(p.pending, Listed(|best|, maxCount)))
            <==> |best| <= 2 || maxCount == 1 || maxCount == 2
  {
    hide Falling, DistinctHashes;
    var n := |best|;
    if n <= 2 || maxCount == 1 || maxCount == 2 {
      forall p: Pool | Consistent(p) && |p.pending| == n ensures Sorted(p.pending, Listed(n, maxCount)) {
        if n >= 2 {
          FirstTwoInOrder(p.pending);
        }
      }
    } else {
      var s := Swapped(best, 1, 2);
      ThirdOutOfOrder(best);
      SwappedDistinct(best, 1, 2);
      PoolOfIsConsistent(s);
      HeapIsPushed(s);
      hide Consistent, Heap, Beats, PushAll;
      assert !Sorted(PoolOf(s).pending, Listed(n, maxCount));
    }
  }

  // ---------- Draining ----------

  /** Repeatedly take the first pending item and remove it by its hash: what came out, and what is left. */
  function DrainRun(p: Pool): (seq<Item>, Pool)
    decreases |p.pending|
  {
    if p.pending == [] then ([], p) else
      var (rest, end) := DrainRun(Removed(p, 0));
      ([p.pending[0]] + rest, end)
  }

  /**
    Draining yields every pooled transaction exactly once, no later one beating an earlier one, and
    leaves both indexes empty.
   */
  lemma DrainEmptiesPool(p: Pool)
    requires Consistent(p)
    ensures var (drained, end) := DrainRun(p);
      && end == Pool([], map[], map[])
      && multiset(drained) == multiset(p.pending)
      && forall i, j :: 0 <= i < j < |drained| ==> Precedes(drained[i].rank, drained[j].rank)
  {
    hide Heap, Drain, DrainRun, Beats, Precedes;
    DrainFollows(p);
    DrainOrder(p.pending);
    var drained := DrainRun(p).0;
    forall i, j | 0 <= i < j < |drained| ensures Precedes(drained[i].rank, drained[j].rank) {
      PrecedesExactlyWhen(drained[i].rank, drained[j].rank);
    }
  }

  lemma {:induction false} DrainFollows(p: Pool)
    requires Consistent(p)
    ensures DrainRun(p) == (Drain(p.pending), Pool([], map[], map[]))
    decreases |p.pending|
  {
    hide Consistent, RemoveAt;
    if p.pending == [] {
      NothingIndexed(p);
    } else {
      RemovedConsistent(p, 0);
      DrainFollows(Removed(p, 0));
    }
  }

  lemma NothingIndexed(p: Pool)
    requires Consistent(p) && p.pending == []
    ensures p == Pool([], map[], map[])
  {
    assert forall h :: h in p.all ==> p.all[h] in p.pending;
    assert p.all == map[];
    IndexedMeansPooled(p.pending, p.bySender);
  }

  lemma IndexedMeansPooled(pending: seq<Item>, bySender: BySender)
    requires SenderIndex(pending, bySender) && NoEmptySender(bySender)
    ensures bySender == map[] || pending != []
  {
    if bySender != map[] {
      var a :| a in bySender;
      var n :| n in bySender[a].Keys;
      assert bySender[a][n] in pending;
    }
  }

  // ---------- Admission ----------

  datatype AddResult =
    | Accepted
    | DuplicateTx | TxTooOld | InvalidFee | StateError | UnknownSender
    | InsufficientBalance | InvalidNonce | PoolFull

  /** The three state queries about the sender, each of which may fail. */
  datatype SenderState = SenderState(
    hasAccountFails: bool, hasAccount: bool, balanceFails: bool, balance: nat, nonceFails: bool, nonce: Nonce)

  function Validate(tx: Transaction, now: int, state: SenderState): AddResult {
    if tx.offline && now - tx.timestamp * 1_000_000_000 > MAX_TTL then TxTooOld
    else if tx.fee < MIN_FEE_PER_BYTE * (tx.dataSize + BASE_TX_SIZE) then InvalidFee
    else if state.hasAccountFails then StateError
    else if !state.hasAccount then UnknownSender
    else if state.balanceFails then StateError
    else if state.balance < (tx.amount + tx.fee) % UINT64 then InsufficientBalance
    else if state.nonceFails then StateError
    else if tx.nonce < state.nonce then InvalidNonce
    else Accepted
  }

  /** Each refusal, by the first check that fails. */
  lemma AdmittedExactlyWhen(tx: Transaction, now: int, state: SenderState)
    ensures var r := Validate(tx, now, state);
      var late := tx.offline && now - tx.timestamp * 1_000_000_000 > 604_800_000_000_000;
      var cheap := tx.fee < tx.dataSize + 100;
      var short := state.balance < (tx.amount + tx.fee) % 0x1_0000_0000_0000_0000;
      && (r.TxTooOld? <==> late)
      && (r.InvalidFee? <==> !late && cheap)
      && (r.UnknownSender? <==> !late && !cheap && !state.hasAccountFails && !state.hasAccount)
      && (r.InsufficientBalance? <==> !late && !cheap && !state.hasAccountFails && state.hasAccount && !state.balanceFails && short)
      && (r.InvalidNonce? <==>
            !late && !cheap && !state.hasAccountFails && state.hasAccount && !state.balanceFails && !short
            && !state.nonceFails && tx.nonce < state.nonce)
      && (r.StateError? <==>
            !late && !cheap
            && (state.hasAccountFails || (state.hasAccount && (state.balanceFails || (!short && state.nonceFails)))))
      && (r.Accepted? <==>
            !late && !cheap && !state.hasAccountFails && state.hasAccount && !state.balanceFails && !short
            && !state.nonceFails && tx.nonce >= state.nonce)
  {
  }

  /** An item expires exactly when it has been pooled for more than seven days. */
  lemma ExpiredExactlyWhen(item: Item, now: int)
    ensures Expired(item, now) <==> now > item.rank.addedAt + 604_800_000_000_000
  {
  }

  // ---------- The pool in place ----------

  ghost predicate IndexesMatch(s: seq<Item>)
    reads s
  {
    forall k :: 0 <= k < |s| ==> s[k].index == k
  }

  class TxPool {
    var pending: seq<Item>
    var all: ByHash
    var bySender: BySender

    ghost function View(): Pool
      reads this
    {
      Pool(pending, all, bySender)
    }

    ghost predicate Valid()
      reads this, pending
    {
      Consistent(View()) && IndexesMatch(pending) && |pending| <= MAX_POOL_SIZE
    }

    constructor ()
      ensures Valid() && View() == Pool([], map[], map[])
    {
      pending := [];
      all := map[];
      bySender := map[];
    }

    // ----- container/heap on `pending` -----

    method Swap(i: nat, j: nat)
      requires i < |pending| && j < |pending| && IndexesMatch(pending)
      modifies this`pending, pending
      ensures pending == Swapped(old(pending), i, j) && IndexesMatch(pending)
      ensures forall k :: 0 <= k < |pending| ==> pending[k] in old(pending)
    {
      pending := pending[i := pending[j]][j := pending[i]];
      pending[i].index := i;
      pending[j].index := j;
    }

    method SiftUp(j0: nat)
      requires j0 < |pending| && IndexesMatch(pending)
      modifies this`pending, pending
      ensures pending == Up(old(pending), j0) && IndexesMatch(pending)
      ensures forall k :: 0 <= k < |pending| ==> pending[k] in old(pending)
    {
      var j: nat := j0;
      while true
        invariant j < |pending| == |old(pending)|
        invariant Up(pending, j) == Up(old(pending), j0)
        invariant IndexesMatch(pending)
        invariant forall k :: 0 <= k < |pending| ==> pending[k] in old(pending)
        decreases j
      {
        var i: nat := if j == 0 then 0 else (j - 1) / 2;
        if i == j || !Less(pending, j, i) {
          break;
        }
        Swap(i, j);
        j := i;
      }
    }

    method SiftDown(i0: nat, n: nat) returns (moved: bool)
      requires n <= |pending| && IndexesMatch(pending)
      modifies this`pending, pending
      ensures pending == Down(old(pending), i0, n) && IndexesMatch(pending)
      ensures moved <==> Sinks(old(pending), i0, n)
      ensures !moved ==> pending == old(pending)
      ensures forall k :: 0 <= k < |pending| ==> pending[k] in old(pending)
    {
      hide Down, Beats, Less;
      var i: nat := i0;
      while true
        invariant n <= |pending| == |old(pending)|
        invariant Down(pending, i, n) == Down(old(pending), i0, n)
        invariant if i == i0 then pending == old(pending) else i > i0 && Sinks(old(pending), i0, n)
        invariant IndexesMatch(pending)
        invariant forall k :: 0 <= k < |pending| ==> pending[k] in old(pending)
        decreases n - i
      {
        DownStep(pending, i, n);
        var j1: nat := 2 * i + 1;
        if j1 >= n {
          break;
        }
        var j := j1;
        var j2 := j1 + 1;
        if j2 < n && Less(pending, j2, j1) {
          j := j2;
        }
        assert j == BestChild(pending, i, n);
        if !Less(pending, j, i) {
          break;
        }
        Swap(i, j);
        i := j;
      }
      return i > i0;
    }

    /** The queue's own Pop: cut off the last item. */
    method CutLast() returns (item: Item)
      requires pending != [] && IndexesMatch(pending)
      modifies this`pending, pending
      ensures pending == old(pending)[..|old(pending)| - 1] && IndexesMatch(pending)
      ensures item == old(pending)[|old(pending)| - 1] && item.index == -1
    {
      var n := |pending|;
      item := pending[n - 1];
      item.index := -1;
      pending := pending[..n - 1];
    }

    method HeapPush(item: Item)
      requires IndexesMatch(pending) && item !in pending
      modifies this`pending, pending, item
      ensures pending == Push(old(pending), item) && IndexesMatch(pending)
    {
      item.index := |pending|;
      pending := pending + [item];
      SiftUp(|pending| - 1);
    }

    method HeapPop() returns (item: Item)
      requires IndexesMatch(pending) && pending != []
      modifies this`pending, pending
      ensures pending == RemoveAt(old(pending), 0) && IndexesMatch(pending)
      ensures item == old(pending)[0]
      ensures forall k :: 0 <= k < |pending| ==> pending[k] in old(pending)
    {
      PopIsRemoveRoot(pending);
      RemovedLast(pending, 0);
      hide Up, Beats;
      var n := |pending| - 1;
      Swap(0, n);
      var _ := SiftDown(0, n);
      item := CutLast();
    }

    method HeapRemove(i: nat) returns (item: Item)
      requires IndexesMatch(pending) && i < |pending|
      modifies this`pending, pending
      ensures pending == RemoveAt(old(pending), i) && IndexesMatch(pending)
      ensures item == old(pending)[i]
      ensures forall k :: 0 <= k < |pending| ==> pending[k] in old(pending)
    {
      hide Up, Down, Sinks, Beats, Swapped, RemoveAt, SettleAfterRemoval;
      RemovalCases(pending, i);
      var n := |pending| - 1;
      if n != i {
        Swap(i, n);
        var moved := SiftDown(i, n);
        if !moved {
          SiftUp(i);
        }
      }
      item := CutLast();
    }

    // ----- the pool's operations -----

    /** The pool never answers `PoolFull`: a full pool has a root to evict. */
    method AddTransaction(tx: Transaction, rank: Rank, now: int, state: SenderState)
        returns (result: AddResult, ghost item: Item?)
      requires Valid()
      modifies this, pending
      ensures Valid()
      ensures result == if tx.hash in old(all) then DuplicateTx else Validate(tx, now, state)
      ensures !result.Accepted? ==> View() == old(View())
      ensures result.Accepted? ==>
                && item != null && fresh(item) && item.tx == tx && item.rank == rank
                && View() == Added(if |old(pending)| >= 10_000 then Removed(old(View()), 0) else old(View()), item)
    {
      if tx.hash in all {
        return DuplicateTx, null;
      }
      hide Consistent;
      var verdict := Validate(tx, now, state);
      if !verdict.Accepted? {
        return verdict, null;
      }
      if |pending| >= MAX_POOL_SIZE {
        var evicted := EvictLowestPriority();
        if !evicted {
          return PoolFull, null;
        }
      }
      assert forall k :: 0 <= k < |pending| ==> pending[k] in old(pending);
      var added := Insert(tx, rank);
      return Accepted, added;
    }

    method Insert(tx: Transaction, rank: Rank) returns (item: Item)
      requires Valid() && tx.hash !in all && |pending| < MAX_POOL_SIZE
      modifies this, pending
      ensures Valid()
      ensures fresh(item) && item.tx == tx && item.rank == rank
      ensures View() == Added(old(View()), item)
    {
      item := new Item(tx, rank);
      hide Consistent, Push, Queue;
      HashIsFresh(View(), item);
      AddedConsistent(View(), item);
      AddToQueue(pending, all, item);
      all := all[tx.hash := item];
      HeapPush(item);
      if tx.sender !in bySender {
        bySender := bySender[tx.sender := map[]];
      }
      var senderTxs: Entries := bySender[tx.sender];
      bySender := bySender[tx.sender := senderTxs[tx.nonce := item]];
      assert View() == Added(old(View()), item);
    }

    /** Evicts the root, which is the item that nothing beats, not the lowest. */
    method EvictLowestPriority() returns (ok: bool)
      requires Valid()
      modifies this, pending
      ensures Valid()
      ensures ok <==> old(pending) != []
      ensures View() == if ok then Removed(old(View()), 0) else old(View())
      ensures forall x :: x in pending ==> x in old(pending)
    {
      if |pending| == 0 {
        return false;
      }
      RemovedConsistent(View(), 0);
      hide Consistent, RemoveAt;
      var item := HeapPop();
      all := all - {item.tx.hash};
      DropSenderEntry(item);
      return true;
    }

    method DropSenderEntry(item: Item)
      modifies this`bySender
      ensures bySender == DropIfEmpty(DropEntry(old(bySender), item.tx.sender, item.tx.nonce), item.tx.sender)
    {
      var fromAddr := item.tx.sender;
      if fromAddr in bySender {
        bySender := bySender[fromAddr := bySender[fromAddr] - {item.tx.nonce}];
        if |bySender[fromAddr]| == 0 {
          bySender := bySender - {fromAddr};
        }
      }
    }

    /** The first `maxCount` items of the queue; all of them when `maxCount` is not in range. */
    method GetPendingTransactions(maxCount: int) returns (txs: seq<Transaction>)
      ensures |txs| == Listed(|pending|, maxCount)
      ensures |txs| == if 0 < maxCount <= |pending| then maxCount else |pending|
      ensures Valid() ==> forall x :: x in pending ==> txs != [] && txs[0] == pending[0].tx && Precedes(pending[0].rank, x.rank)
      ensures forall i :: 0 <= i < |txs| ==> txs[i] == pending[i].tx
    {
      var limit := maxCount;
      if limit <= 0 || limit > |pending| {
        limit := |pending|;
      }
      txs := [];
      var i := 0;
      while i < limit && i < |pending|
        invariant 0 <= i <= limit <= |pending| && |txs| == i
        invariant forall k :: 0 <= k < i ==> txs[k] == pending[k].tx
      {
        txs := txs + [pending[i].tx];
        i := i + 1;
      }
      if Valid() && pending != [] {
        FirstIsBest(View());
      }
    }

    method RemoveTransaction(hash: string)
      requires Valid()
      modifies this, pending
      ensures Valid()
      ensures hash !in old(all) ==> View() == old(View())
      ensures hash in old(all) ==>
                && 0 <= old(all[hash].index) < |old(pending)|
                && old(pending)[old(all[hash].index)] == old(all[hash])
                && View() == Removed(old(View()), old(all[hash].index))
      ensures forall x :: x in pending <==> x in old(pending) && x.tx.hash != hash
      ensures forall k :: 0 <= k < |pending| ==> pending[k] in old(pending)
    {
      if hash !in all {
        return;
      }
      var item := all[hash];
      RemovedConsistent(View(), item.index);
      hide Consistent;
      var _ := HeapRemove(item.index);
      all := all - {hash};
      DropSenderEntry(item);
    }

    method RemoveEntry(sender: string, nonce: Nonce, item: Item)
      requires Queue(pending, all) && SenderIndex(pending, bySender) && IndexesMatch(pending)
      requires sender in bySender && item in pending && item.tx.nonce == nonce && item.tx.sender == sender
      modifies this, pending
      ensures Queue(pending, all) && SenderIndex(pending, bySender) && IndexesMatch(pending)
      ensures |pending| <= |old(pending)|
      ensures forall x :: x in pending <==> x in old(pending) && x != item
      ensures forall k :: 0 <= k < |pending| ==> pending[k] in old(pending)
      ensures bySender == old(bySender)[sender := old(bySender)[sender] - {nonce}]
    {
      hide Heap, RemoveAt, NoDuplicates;
      RemoveFromQueue(pending, all, item.index);
      DropFromSenders(pending, bySender, item, RemoveAt(pending, item.index));
      var _ := HeapRemove(item.index);
      all := all - {item.tx.hash};
      bySender := bySender[sender := bySender[sender] - {nonce}];
    }

    /** Removes the entries of the nonces in `victims`, in whatever order. */
    method RemoveEntries(sender: string, victims: set<Nonce>)
      requires Queue(pending, all) && SenderIndex(pending, bySender) && IndexesMatch(pending)
      requires sender in bySender && victims <= bySender[sender].Keys
      modifies this, pending
      ensures Queue(pending, all) && SenderIndex(pending, bySender) && IndexesMatch(pending)
      ensures |pending| <= |old(pending)|
      ensures PartlyRemoved(old(pending), old(bySender)[sender], victims, pending)
      ensures bySender == old(bySender)[sender := old(bySender)[sender] - victims]
    {
      hide Queue, SenderIndex, PartlyRemoved;
      ghost var before := bySender;
      var senderTxs := bySender[sender];
      var toRemove := victims;
      ghost var done: set<Nonce> := {};
      IndexedEntries(pending, before, sender);
      StartRemoving(pending, before, sender);
      while toRemove != {}
        invariant Queue(pending, all) && SenderIndex(pending, bySender)
        invariant IndexesMatch(pending) && |pending| <= |old(pending)|
        invariant toRemove + done == victims && toRemove !! done
        invariant bySender == before[sender := senderTxs - done]
        invariant PartlyRemoved(old(pending), senderTxs, done, pending)
        invariant forall k :: 0 <= k < |pending| ==> pending[k] in old(pending)
        decreases toRemove
      {
        var n :| n in toRemove;
        ghost var now := pending;
        NotYetRemoved(old(pending), senderTxs, done, now, n);
        RemoveEntry(sender, n, senderTxs[n]);
        RemoveOneMore(old(pending), senderTxs, done, now, n, pending);
        DropOneMore(senderTxs, done, n);
        toRemove := toRemove - {n};
        done := done + {n};
      }
      assert done == victims;
    }

    /** Removes the sender's indexed transactions with a nonce of at least `nonce`. */
    method RemoveByNonce(sender: string, nonce: Nonce)
      requires Valid()
      modifies this, pending
      ensures Valid()
      ensures forall x :: x in pending <==> x in old(pending) && !IndexedFrom(old(bySender), sender, nonce, x)
      ensures bySender == DropIfEmpty(DropNonces(old(bySender), sender, nonce), sender)
    {
      hide Queue, SenderIndex, PartlyRemoved, NoEmptySender, IndexedFrom, DropNonces, DropIfEmpty;
      if sender !in bySender {
        NothingToDrop(bySender, sender, nonce);
        return;
      }
      var victims := NoncesFrom(bySender[sender], nonce);
      RemoveEntries(sender, victims);
      AllRemoved(old(pending), old(bySender), sender, nonce, victims, pending);
      FinishSenders(pending, old(bySender), sender, nonce);
      EmptyIsDropped(bySender, sender);
      if |bySender[sender].Keys| == 0 {
        bySender := bySender - {sender};
      }
    }

    /** Removes what is older than a week, in whatever order, and returns how many there were. */
    method CleanExpired(now: int) returns (count: nat)
      requires Valid()
      modifies this, pending
      ensures Valid()
      ensures forall x :: x in pending <==> x in old(pending) && !Expired(x, now)
      ensures forall x :: x in pending <==> x in old(pending) && now - x.rank.addedAt <= 604_800_000_000_000
      ensures count == |old(pending)| - |pending|
      ensures EntriesLeft(old(View()), View())
      ensures Complete(old(View())) ==> Complete(View())
    {
      hide Consistent, RemoveAt, DropEntry, DropIfEmpty, Cleaning, EntriesLeft, Complete;
      var toRemove := set h | h in all && Expired(all[h], now);
      count := |toRemove|;
      StartCleaning(View(), toRemove, now);
      AllEntriesLeft(View());
      while toRemove != {}
        invariant Valid()
        invariant Cleaning(old(View()), View(), toRemove, now)
        invariant EntriesLeft(old(View()), View())
        invariant forall k :: 0 <= k < |pending| ==> pending[k] in old(pending)
        invariant |pending| + count == |old(pending)| + |toRemove|
        decreases toRemove
      {
        var hash :| hash in toRemove;
        ghost var p := View();
        ExpiredIsPooled(old(View()), p, toRemove, now, hash);
        ghost var i := all[hash].index;
        RemoveTransaction(hash);
        CleanOne(old(View()), p, toRemove, now, hash, View());
        EntriesLeftAfterOne(old(View()), p, i, View());
        toRemove := toRemove - {hash};
      }
      DoneCleaning(old(View()), View(), now);
      if Complete(old(View())) {
        EntriesLeftComplete(old(View()), View());
      }
    }
  }

  predicate Expired(item: Item, now: int) {
    now - item.rank.addedAt > MAX_TTL
  }

  /** The item is the one indexed under the sender and its nonce, which is at least `nonce`. */
  ghost predicate IndexedFrom(bySender: BySender, sender: string, nonce: Nonce, x: Item) {
    && sender in bySender
    && x.tx.nonce in bySender[sender] && bySender[sender][x.tx.nonce] == x
    && x.tx.nonce >= nonce
  }

  function NoncesFrom(entries: Entries, nonce: Nonce): (nonces: set<Nonce>)
    ensures nonces <= entries.Keys
  {
    set n | n in entries && n >= nonce
  }

  /** Only the sender's entries below `nonce` stay. */
  function DropNonces(bySender: BySender, sender: string, nonce: Nonce): BySender {
    if sender !in bySender then bySender
    else bySender[sender := map n | n in bySender[sender] && n < nonce :: bySender[sender][n]]
  }

  /** `now` holds what `before` held except the entries of the nonces in `done`. */
  ghost predicate PartlyRemoved(before: seq<Item>, entries: Entries, done: set<Nonce>, now: seq<Item>) {
    && done <= entries.Keys
    && (forall x :: x in now ==> x in before && !(x.tx.nonce in done && entries[x.tx.nonce] == x))
    && (forall x :: x in before && !(x.tx.nonce in done && entries[x.tx.nonce] == x) ==> x in now)
  }

  lemma IndexedEntries(pending: seq<Item>, bySender: BySender, sender: string)
    requires SenderIndex(pending, bySender) && sender in bySender
    ensures forall n :: n in bySender[sender] ==>
              bySender[sender][n] in pending && bySender[sender][n].tx.nonce == n && bySender[sender][n].tx.sender == sender
  {
  }

  lemma StartRemoving(pending: seq<Item>, bySender: BySender, sender: string)
    requires sender in bySender
    ensures PartlyRemoved(pending, bySender[sender], {}, pending)
    ensures bySender == bySender[sender := bySender[sender] - {}]
  {
    assert bySender[sender] - {} == bySender[sender];
  }

  lemma NotYetRemoved(before: seq<Item>, entries: Entries, done: set<Nonce>, now: seq<Item>, n: Nonce)
    requires PartlyRemoved(before, entries, done, now)
    requires n in entries && n !in done && entries[n] in before && entries[n].tx.nonce == n
    ensures entries[n] in now
  {
  }

  lemma RemoveOneMore(before: seq<Item>, entries: Entries, done: set<Nonce>, now: seq<Item>, n: Nonce, after: seq<Item>)
    requires PartlyRemoved(before, entries, done, now)
    requires n in entries && entries[n].tx.nonce == n
    requires forall x :: x in after <==> x in now && x != entries[n]
    ensures PartlyRemoved(before, entries, done + {n}, after)
  {
  }

  lemma NothingToDrop(bySender: BySender, sender: string, nonce: Nonce)
    requires sender !in bySender
    ensures DropIfEmpty(DropNonces(bySender, sender, nonce), sender) == bySender
    ensures forall x :: !IndexedFrom(bySender, sender, nonce, x)
  {
  }

  lemma EmptyIsDropped(bySender: BySender, sender: string)
    requires sender in bySender
    ensures DropIfEmpty(bySender, sender) == if |bySender[sender].Keys| == 0 then bySender - {sender} else bySender
  {
  }

  lemma FinishSenders(pending: seq<Item>, bySender: BySender, sender: string, nonce: Nonce)
    requires NoEmptySender(bySender) && SenderIndex(pending, DropNonces(bySender, sender, nonce))
    ensures NoEmptySender(DropIfEmpty(DropNonces(bySender, sender, nonce), sender))
    ensures SenderIndex(pending, DropIfEmpty(DropNonces(bySender, sender, nonce), sender))
  {
  }

  lemma DropOneMore(entries: Entries, done: set<Nonce>, n: Nonce)
    ensures (entries - done) - {n} == entries - (done + {n})
  {
  }

  lemma AllRemoved(before: seq<Item>, bySender: BySender, sender: string, nonce: Nonce, done: set<Nonce>, now: seq<Item>)
    requires sender in bySender && PartlyRemoved(before, bySender[sender], done, now)
    requires done == NoncesFrom(bySender[sender], nonce)
    ensures forall x :: x in now <==> x in before && !IndexedFrom(bySender, sender, nonce, x)
    ensures bySender[sender := bySender[sender] - done] == DropNonces(bySender, sender, nonce)
  {
    assert bySender[sender] - done == map n | n in bySender[sender] && n < nonce :: bySender[sender][n];
  }

  ghost predicate HasEntry(bySender: BySender, sender: string, nonce: Nonce) {
    sender in bySender && nonce in bySender[sender]
  }

  /** The removed items' slots, and no others, are gone from the index; together with `NoEmptySender` this fixes it. */
  ghost predicate EntriesLeft(before: Pool, now: Pool) {
    && (forall x :: x in now.pending ==> x in before.pending)
    && (forall a, n :: EntryLeft(before, now, a, n))
  }

  ghost predicate EntryLeft(before: Pool, now: Pool, a: string, n: Nonce) {
    && (HasEntry(now.bySender, a, n) <==> HasEntry(before.bySender, a, n) && SlotStays(before, now, a, n))
    && (HasEntry(now.bySender, a, n) ==> now.bySender[a][n] == before.bySender[a][n])
  }

  /** No item of this sender and nonce is gone. */
  ghost predicate SlotStays(before: Pool, now: Pool, a: string, n: Nonce) {
    forall x :: x in before.pending && x.tx.sender == a && x.tx.nonce == n ==> x in now.pending
  }

  lemma IndexIsDetermined(before: Pool, p: Pool, q: Pool)
    requires EntriesLeft(before, p) && EntriesLeft(before, q) && p.pending == q.pending
    requires NoEmptySender(p.bySender) && NoEmptySender(q.bySender)
    ensures p.bySender == q.bySender
  {
    forall a, n
      ensures HasEntry(p.bySender, a, n) <==> HasEntry(q.bySender, a, n)
      ensures HasEntry(p.bySender, a, n) ==> p.bySender[a][n] == q.bySender[a][n]
    {
      assert EntryLeft(before, p, a, n) && EntryLeft(before, q, a, n);
    }
    SameEntries(p.bySender, q.bySender);
    SameEntries(q.bySender, p.bySender);
    assert p.bySender.Keys == q.bySender.Keys;
  }

  lemma SameEntries(x: BySender, y: BySender)
    requires NoEmptySender(x) && NoEmptySender(y)
    requires forall a, n :: HasEntry(x, a, n) <==> HasEntry(y, a, n)
    requires forall a, n :: HasEntry(x, a, n) && HasEntry(y, a, n) ==> x[a][n] == y[a][n]
    ensures forall a :: a in x ==> a in y && x[a] == y[a]
  {
    forall a | a in x ensures a in y && x[a] == y[a] {
      var n :| n in x[a].Keys;
      assert HasEntry(x, a, n);
      forall m ensures m in x[a] <==> m in y[a] {
        assert HasEntry(x, a, m) <==> HasEntry(y, a, m);
      }
      assert forall m :: m in x[a] ==> HasEntry(x, a, m);
    }
  }

  lemma AllEntriesLeft(p: Pool)
    ensures EntriesLeft(p, p)
  {
  }

  lemma DroppedEntries(bySender: BySender, sender: string, nonce: Nonce, a: string, n: Nonce)
    ensures var after := DropIfEmpty(DropEntry(bySender, sender, nonce), sender);
      && (HasEntry(after, a, n) <==> HasEntry(bySender, a, n) && !(a == sender && n == nonce))
      && (HasEntry(after, a, n) ==> after[a][n] == bySender[a][n])
  {
    assert HasEntry(bySender, a, n) && a == sender && n != nonce ==> n in bySender[sender] - {nonce};
  }

  lemma EntriesLeftAfterOne(before: Pool, p: Pool, i: nat, after: Pool)
    requires Consistent(p) && EntriesLeft(before, p) && i < |p.pending| && after == Removed(p, i)
    ensures EntriesLeft(before, after)
  {
    RemovedConsistent(p, i);
    var item := p.pending[i];
    assert forall x :: x in after.pending <==> x in p.pending && x != item;
    hide Consistent, Removed, EntryLeft;
    forall a, n ensures EntryLeft(before, after, a, n) {
      EntryLeftAfterOne(before, p, item, after, a, n);
    }
  }

  lemma EntryLeftAfterOne(before: Pool, p: Pool, item: Item, after: Pool, a: string, n: Nonce)
    requires EntryLeft(before, p, a, n) && item in before.pending
    requires forall x :: x in after.pending <==> x in p.pending && x != item
    requires after.bySender == DropIfEmpty(DropEntry(p.bySender, item.tx.sender, item.tx.nonce), item.tx.sender)
    ensures EntryLeft(before, after, a, n)
  {
    DroppedEntries(p.bySender, item.tx.sender, item.tx.nonce, a, n);
    hide DropEntry, DropIfEmpty, HasEntry;
  }

  /** An item that stays is still indexed exactly when it was and no removed item shared its slot. */
  lemma StaysIndexedExactlyWhen(before: Pool, now: Pool, x: Item)
    requires EntriesLeft(before, now) && x in now.pending
    ensures IsIndexed(now.bySender, x) <==>
            IsIndexed(before.bySender, x) && forall y :: y in before.pending && SameSlot(x, y) ==> y in now.pending
  {
    assert EntryLeft(before, now, x.tx.sender, x.tx.nonce);
    assert SlotStays(before, now, x.tx.sender, x.tx.nonce) <==> forall y :: y in before.pending && SameSlot(x, y) ==> y in now.pending;
  }

  lemma EntriesLeftComplete(before: Pool, now: Pool)
    requires EntriesLeft(before, now) && Complete(before)
    ensures Complete(now)
  {
    hide IsIndexed, SameSlot;
    forall x | x in now.pending ensures IsIndexed(now.bySender, x) {
      StaysIndexedExactlyWhen(before, now, x);
      forall y | y in before.pending && SameSlot(x, y) ensures y in now.pending {
        if x != y {
          OneItemPerSlot(before.bySender, x, y);
          assert false;
        }
      }
    }
  }

  /** While cleaning, `now` holds what `before` held except the expired items not listed any more. */
  ghost predicate Cleaning(before: Pool, now: Pool, listed: set<string>, time: int) {
    && (forall h :: h in listed ==> h in now.all && Expired(now.all[h], time))
    && (forall x :: x in now.pending ==> x in before.pending && (Expired(x, time) ==> x.tx.hash in listed))
    && (forall x :: x in before.pending && !Expired(x, time) ==> x in now.pending)
  }

  lemma StartCleaning(p: Pool, listed: set<string>, time: int)
    requires Consistent(p) && listed == set h | h in p.all && Expired(p.all[h], time)
    ensures Cleaning(p, p, listed, time)
  {
  }

  lemma ExpiredIsPooled(before: Pool, p: Pool, listed: set<string>, time: int, hash: string)
    requires Consistent(p) && Cleaning(before, p, listed, time) && hash in listed
    ensures hash in p.all && p.all[hash] in p.pending && p.all[hash].tx.hash == hash && Expired(p.all[hash], time)
  {
  }

  lemma CleanOne(before: Pool, p: Pool, listed: set<string>, time: int, hash: string, after: Pool)
    requires Consistent(p) && Consistent(after) && Cleaning(before, p, listed, time) && hash in listed
    requires forall x :: x in after.pending <==> x in p.pending && x.tx.hash != hash
    ensures Cleaning(before, after, listed - {hash}, time)
  {
    hide Heap, NoDuplicates;
    forall h | h in listed - {hash} ensures h in after.all && Expired(after.all[h], time) {
      assert p.all[h] in after.pending;
    }
    forall x | x in before.pending && !Expired(x, time) ensures x in after.pending {
      assert x in p.pending;
    }
  }

  lemma DoneCleaning(before: Pool, p: Pool, time: int)
    requires Cleaning(before, p, {}, time)
    ensures forall x :: x in p.pending <==> x in before.pending && !Expired(x, time)
  {
  }

  /** Takes the first pending transaction and removes it by its hash, until nothing is pending. */
  method DrainPool(pool: TxPool) returns (txs: seq<Transaction>)
    requires pool.Valid()
    modifies pool, pool.pending
    ensures pool.Valid() && pool.View() == Pool([], map[], map[])
    ensures txs == Transactions(DrainRun(old(pool.View())).0)
  {
    hide Consistent, RemoveAt, DropEntry, DropIfEmpty, DrainRun, Transactions;
    ghost var items: seq<Item> := [];
    ghost var start := pool.View();
    NoTransactions();
    assert [] + DrainRun(start).0 == DrainRun(start).0;
    txs := [];
    var next := pool.GetPendingTransactions(1);
    while next != []
      invariant pool.Valid()
      invariant |next| == (if pool.pending == [] then 0 else 1) && (next != [] ==> next[0] == pool.pending[0].tx)
      invariant forall k :: 0 <= k < |pool.pending| ==> pool.pending[k] in old(pool.pending)
      invariant txs == Transactions(items)
      invariant DrainRun(start) == (items + DrainRun(pool.View()).0, DrainRun(pool.View()).1)
      decreases |pool.pending|
    {
      ghost var p := pool.View();
      DrainStep(p);
      FirstIsPooled(p);
      TransactionsSnoc(items, p.pending[0]);
      assert items + ([p.pending[0]] + DrainRun(Removed(p, 0)).0) == items + [p.pending[0]] + DrainRun(Removed(p, 0)).0;
      pool.RemoveTransaction(next[0].hash);
      items := items + [p.pending[0]];
      txs := txs + [next[0]];
      next := pool.GetPendingTransactions(1);
    }
    DrainStep(pool.View());
    DrainEmptiesPool(pool.View());
    assert items + [] == items;
  }

  lemma DrainStep(p: Pool)
    ensures DrainRun(p) == if p.pending == [] then ([], p) else
      ([p.pending[0]] + DrainRun(Removed(p, 0)).0, DrainRun(Removed(p, 0)).1)
  {
  }

  lemma FirstIsPooled(p: Pool)
    requires Consistent(p) && p.pending != []
    ensures p.pending[0].tx.hash in p.all && p.all[p.pending[0].tx.hash] == p.pending[0]
  {
    assert p.pending[0] in p.pending;
  }

  function Transactions(items: seq<Item>): seq<Transaction> {
    if items == [] then [] else Transactions(items[..|items| - 1]) + [items[|items| - 1].tx]
  }

  lemma NoTransactions()
    ensures Transactions([]) == []
  {
  }

  lemma TransactionsSnoc(items: seq<Item>, item: Item)
    ensures Transactions(items + [item]) == Transactions(items) + [item.tx]
  {
    assert (items + [item])[..|items|] == items;
  }
}
