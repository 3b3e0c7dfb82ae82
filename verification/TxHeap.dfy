/**
  The priority queue of the transaction pool (TxPriorityQueue in code/go/pkg/tx/pool.go under Go's
  container/heap), as functions on the slice of pooled items.

  Ordering and items are immutable, so all of this is independent of the heap; the pool in
  TxPool.dfy updates its slice and the items' back-pointers in place and follows these functions.
 */
module TxHeap {

  /** Stands for a transaction's priority, gas price and arrival time, in nanoseconds. */
  datatype Rank = Rank(priority: real, gasPrice: nat, addedAt: int)

  newtype Nonce = n: int | 0 <= n < 0x1_0000_0000_0000_0000

  datatype Transaction = Transaction(
    hash: string, sender: string, nonce: Nonce, fee: nat, amount: nat, dataSize: nat, timestamp: int, offline: bool)

  /** A pooled transaction; `index` is its position in the queue, or -1. */
  class Item {
    const tx: Transaction
    const rank: Rank
    var index: int

    constructor (tx: Transaction, rank: Rank)
      ensures this.tx == tx && this.rank == rank
    {
      this.tx, this.rank := tx, rank;
      index := 0;
    }
  }

  /** The queue's Less: higher priority, then higher gas price, then older. */
  predicate Beats(a: Rank, b: Rank) {
    if a.priority != b.priority then a.priority > b.priority
    else if a.gasPrice != b.gasPrice then a.gasPrice > b.gasPrice
    else a.addedAt < b.addedAt
  }

  /** On the fields: a higher priority; on a tie no lower gas price; on a second tie no later arrival. */
  ghost predicate Precedes(a: Rank, b: Rank) {
    && a.priority >= b.priority
    && (a.priority == b.priority ==> a.gasPrice >= b.gasPrice)
    && (a.priority == b.priority && a.gasPrice == b.gasPrice ==> a.addedAt <= b.addedAt)
  }

  /** One may stand before another exactly when the other does not beat it. */
  lemma PrecedesExactlyWhen(a: Rank, b: Rank)
    ensures Precedes(a, b) <==> !Beats(b, a)
  {
  }

  predicate Less(s: seq<Item>, i: nat, j: nat)
    requires i < |s| && j < |s|
  {
    Beats(s[i].rank, s[j].rank)
  }

  function Parent(k: nat): nat
    requires k > 0
  {
    (k - 1) / 2
  }

  function Swapped(s: seq<Item>, i: nat, j: nat): (r: seq<Item>)
    requires i < |s| && j < |s|
    ensures |r| == |s|
  {
    s[i := s[j]][j := s[i]]
  }

  // ---------- container/heap ----------

  function Up(s: seq<Item>, j: nat): (r: seq<Item>)
    requires j < |s|
    ensures |r| == |s|
    decreases j
  {
    if j == 0 || !Less(s, j, Parent(j)) then s else Up(Swapped(s, Parent(j), j), Parent(j))
  }

  /** The child of `i` below `n` that beats the other one. */
  function BestChild(s: seq<Item>, i: nat, n: nat): (j: nat)
    requires n <= |s| && 2 * i + 1 < n
    ensures 0 < j < n && Parent(j) == i
  {
    if 2 * i + 2 < n && Less(s, 2 * i + 2, 2 * i + 1) then 2 * i + 2 else 2 * i + 1
  }

  predicate Sinks(s: seq<Item>, i: nat, n: nat)
    requires n <= |s|
  {
    2 * i + 1 < n && Less(s, BestChild(s, i, n), i)
  }

  function Down(s: seq<Item>, i: nat, n: nat): (r: seq<Item>)
    requires n <= |s|
    ensures |r| == |s|
    decreases n - i
  {
    if !Sinks(s, i, n) then s else Down(Swapped(s, i, BestChild(s, i, n)), BestChild(s, i, n), n)
  }

  function Push(s: seq<Item>, x: Item): seq<Item> {
    Up(s + [x], |s|)
  }

  /** The slice while `heap.Remove` works on it: the removed item last, the others above it. */
  function SettleAfterRemoval(s: seq<Item>, i: nat): (r: seq<Item>)
    requires i < |s|
    ensures |r| == |s|
  {
    var n := |s| - 1;
    if i == n then s else
      var t := Swapped(s, i, n);
      if Sinks(t, i, n) then Down(t, i, n) else Up(t, i)
  }

  function RemoveAt(s: seq<Item>, i: nat): (r: seq<Item>)
    requires i < |s|
    ensures |r| == |s| - 1
  {
    SettleAfterRemoval(s, i)[..|s| - 1]
  }

  function Pop(s: seq<Item>): (r: seq<Item>)
    requires s != []
    ensures |r| == |s| - 1
  {
    Down(Swapped(s, 0, |s| - 1), 0, |s| - 1)[..|s| - 1]
  }

  // ---------- Heap order ----------

  ghost predicate OrderedAt(s: seq<Item>, k: nat)
    requires 0 < k < |s|
  {
    !Less(s, k, Parent(k))
  }

  /** No item among the first `n` beats its parent. */
  ghost predicate Heap(s: seq<Item>, n: nat)
    requires n <= |s|
  {
    forall k :: 0 < k < n ==> OrderedAt(s, k)
  }

  /** Heap order except around position `i`, whose children still respect its parent. */
  ghost predicate HeapAround(s: seq<Item>, i: nat, n: nat)
    requires n <= |s|
  {
    && (forall k :: 0 < k < n && k != i && Parent(k) != i ==> OrderedAt(s, k))
    && (i > 0 ==> forall k :: 0 < k < n && Parent(k) == i ==> !Less(s, k, Parent(i)))
  }

  ghost predicate ChildrenOrdered(s: seq<Item>, i: nat, n: nat)
    requires n <= |s|
  {
    forall k :: 0 < k < n && Parent(k) == i ==> OrderedAt(s, k)
  }

  lemma SwapPermutes(s: seq<Item>, i: nat, j: nat)
    requires i < |s| && j < |s|
    ensures multiset(Swapped(s, i, j)) == multiset(s)
  {
  }

  lemma {:induction false} UpPermutes(s: seq<Item>, j: nat)
    requires j < |s|
    ensures multiset(Up(s, j)) == multiset(s)
    ensures forall k :: j < k < |s| ==> Up(s, j)[k] == s[k]
    decreases j
  {
    if j > 0 && Less(s, j, Parent(j)) {
      SwapPermutes(s, Parent(j), j);
      UpPermutes(Swapped(s, Parent(j), j), Parent(j));
    }
  }

  lemma {:induction false} DownPermutes(s: seq<Item>, i: nat, n: nat)
    requires n <= |s|
    ensures multiset(Down(s, i, n)) == multiset(s)
    ensures forall k :: n <= k < |s| ==> Down(s, i, n)[k] == s[k]
    decreases n - i
  {
    if Sinks(s, i, n) {
      SwapPermutes(s, i, BestChild(s, i, n));
      DownPermutes(Swapped(s, i, BestChild(s, i, n)), BestChild(s, i, n), n);
    }
  }

  lemma {:induction false} UpOrders(s: seq<Item>, j: nat, n: nat)
    requires j < n <= |s| && HeapAround(s, j, n) && ChildrenOrdered(s, j, n)
    ensures Heap(Up(s, j), n)
    decreases j
  {
    if j > 0 && Less(s, j, Parent(j)) {
      var p, t := Parent(j), Swapped(s, Parent(j), j);
      forall k | 0 < k < n && k != p && Parent(k) != p ensures OrderedAt(t, k) {
        if k != j && Parent(k) != j {
          assert OrderedAt(s, k);
        }
      }
      forall k | 0 < k < n && Parent(k) == p ensures OrderedAt(t, k) {
        if k != j {
          assert OrderedAt(s, k);
        }
      }
      if p > 0 {
        assert OrderedAt(s, p);
        forall k | 0 < k < n && Parent(k) == p ensures !Less(t, k, Parent(p)) {
          if k != j {
            assert OrderedAt(s, k);
          }
        }
      }
      UpOrders(t, p, n);
    } else {
      forall k | 0 < k < n ensures OrderedAt(s, k) {
      }
    }
  }

  lemma {:induction false} DownOrders(s: seq<Item>, i: nat, n: nat)
    requires i < n <= |s| && HeapAround(s, i, n)
    requires i == 0 || OrderedAt(s, i) || Sinks(s, i, n)
    ensures Heap(Down(s, i, n), n)
    decreases n - i
  {
    if Sinks(s, i, n) {
      var c, t := BestChild(s, i, n), Swapped(s, i, BestChild(s, i, n));
      forall k | 0 < k < n && k != c && Parent(k) != c ensures OrderedAt(t, k) {
        if k != i && Parent(k) != i {
          assert OrderedAt(s, k);
        }
      }
      forall k | 0 < k < n && Parent(k) == c ensures !Less(t, k, Parent(c)) {
        assert OrderedAt(s, k);
      }
      assert OrderedAt(t, c);
      DownOrders(t, c, n);
    } else {
      forall k | 0 < k < n ensures OrderedAt(s, k) {
        if Parent(k) == i && k != i {
          assert 2 * i + 1 < n;
        }
      }
    }
  }

  // ---------- Push, remove, pop ----------

  lemma PushIsHeap(s: seq<Item>, x: Item)
    requires Heap(s, |s|)
    ensures Heap(Push(s, x), |s| + 1) && multiset(Push(s, x)) == multiset(s) + multiset{x}
  {
    var t := s + [x];
    forall k | 0 < k < |t| && k != |s| && Parent(k) != |s| ensures OrderedAt(t, k) {
      assert OrderedAt(s, k);
    }
    UpOrders(t, |s|, |t|);
    UpPermutes(t, |s|);
  }

  /** Moving the last item of a heap to position `i` disturbs the order only around `i`. */
  lemma SwapDisturbsOnly(s: seq<Item>, i: nat)
    requires i < |s| - 1 && Heap(s, |s|)
    ensures HeapAround(Swapped(s, i, |s| - 1), i, |s| - 1)
  {
    var n, t := |s| - 1, Swapped(s, i, |s| - 1);
    forall k | 0 < k < n && k != i && Parent(k) != i ensures OrderedAt(t, k) {
      assert OrderedAt(s, k);
    }
    if i > 0 {
      assert OrderedAt(s, i);
      forall k | 0 < k < n && Parent(k) == i ensures !Less(t, k, Parent(i)) {
        assert OrderedAt(s, k);
      }
    }
  }

  lemma RemovedLast(s: seq<Item>, i: nat)
    requires i < |s|
    ensures multiset(SettleAfterRemoval(s, i)) == multiset(s)
    ensures SettleAfterRemoval(s, i)[|s| - 1] == s[i]
  {
    hide Up, Down, Sinks;
    var n := |s| - 1;
    if i < n {
      var t := Swapped(s, i, n);
      SwapPermutes(s, i, n);
      DownPermutes(t, i, n);
      UpPermutes(t, i);
    }
  }

  /** How removal works on the slice: what is cut off last is the removed item. */
  lemma RemovalCases(s: seq<Item>, i: nat)
    requires i < |s|
    ensures var n := |s| - 1;
      if i == n then RemoveAt(s, i) == s[..n]
      else
        var t := Swapped(s, i, n);
        var r := if Sinks(t, i, n) then Down(t, i, n) else Up(t, i);
        RemoveAt(s, i) == r[..n] && r[n] == s[i]
  {
    hide Up, Down, Sinks;
    RemovedLast(s, i);
  }

  /** Removing any position, also in the middle, leaves a heap of exactly the other items. */
  lemma RemoveAtIsHeap(s: seq<Item>, i: nat)
    requires i < |s| && Heap(s, |s|)
    ensures Heap(RemoveAt(s, i), |s| - 1)
    ensures multiset(RemoveAt(s, i)) == multiset(s) - multiset{s[i]}
  {
    var n, r := |s| - 1, SettleAfterRemoval(s, i);
    RemovedLast(s, i);
    assert r == r[..n] + [r[n]];
    assert Heap(r, n) by {
      if i < n {
        var t := Swapped(s, i, n);
        SwapDisturbsOnly(s, i);
        if Sinks(t, i, n) {
          DownOrders(t, i, n);
        } else {
          UnsunkChildren(t, i, n);
          UpOrders(t, i, n);
        }
      } else {
        forall k | 0 < k < n ensures OrderedAt(r, k) {
          assert OrderedAt(s, k);
        }
      }
    }
    forall k | 0 < k < n ensures OrderedAt(r[..n], k) {
      assert OrderedAt(r, k);
    }
  }

  lemma UnsunkChildren(s: seq<Item>, i: nat, n: nat)
    requires n <= |s| && !Sinks(s, i, n)
    ensures ChildrenOrdered(s, i, n)
  {
  }

  /** Taking the root off is removing position zero. */
  lemma PopIsRemoveRoot(s: seq<Item>)
    requires s != []
    ensures Pop(s) == RemoveAt(s, 0)
  {
  }

  /** Nothing in the queue beats its root. */
  lemma {:induction false} RootUnbeaten(s: seq<Item>, k: nat)
    requires k < |s| && Heap(s, |s|)
    ensures !Beats(s[k].rank, s[0].rank) && Precedes(s[0].rank, s[k].rank)
    decreases k
  {
    PrecedesExactlyWhen(s[0].rank, s[k].rank);
    if k > 0 {
      assert OrderedAt(s, k);
      RootUnbeaten(s, Parent(k));
    }
  }

  /**
    Eviction takes the root.  The root is a lowest item, as eviction promises, exactly when all
    pooled items rank the same.
   */
  lemma EvictsLowestExactlyWhen(s: seq<Item>)
    requires s != [] && Heap(s, |s|)
    ensures (forall k :: 0 <= k < |s| ==> !Beats(s[0].rank, s[k].rank)) <==> (forall k :: 0 <= k < |s| ==> s[k].rank == s[0].rank)
  {
    hide Heap, Beats;
    forall k | 0 <= k < |s| ensures !Beats(s[0].rank, s[k].rank) <==> s[k].rank == s[0].rank {
      RootUnbeaten(s, k);
      BeatsIsTotal(s[0].rank, s[k].rank);
    }
  }

  lemma BeatsIsTotal(a: Rank, b: Rank)
    ensures !Beats(a, b) && !Beats(b, a) <==> a == b
  {
  }

  /** When nothing ties with the root, what eviction takes beats everything it leaves. */
  lemma EvictsTheBetter(s: seq<Item>)
    requires s != [] && Heap(s, |s|)
    requires forall k :: 0 < k < |s| ==> s[k].rank != s[0].rank
    ensures forall x :: x in Pop(s) ==> Beats(s[0].rank, x.rank)
  {
    hide Heap, Beats, Pop, RemoveAt;
    PopIsRemoveRoot(s);
    RemoveAtIsHeap(s, 0);
    forall x | x in Pop(s) ensures Beats(s[0].rank, x.rank) {
      assert x in multiset(Pop(s));
      LeftBehind(s, x);
    }
  }

  lemma LeftBehind(s: seq<Item>, x: Item)
    requires s != [] && Heap(s, |s|) && x in multiset(s) - multiset{s[0]}
    requires forall k :: 0 < k < |s| ==> s[k].rank != s[0].rank
    ensures Beats(s[0].rank, x.rank)
  {
    hide Heap, Beats;
    assert s == [s[0]] + s[1..];
    assert x in multiset(s[1..]);
    var k :| 0 <= k < |s[1..]| && s[1..][k] == x;
    RootUnbeaten(s, k + 1);
    BeatsIsTotal(s[0].rank, x.rank);
  }

  // ---------- The order of the pending list ----------

  /** Among the first `m` items no later one beats an earlier one. */
  ghost predicate Sorted(s: seq<Item>, m: nat) {
    forall i, j :: 0 <= i < j < |s| && j < m ==> !Beats(s[j].rank, s[i].rank)
  }

  lemma FirstTwoInOrder(s: seq<Item>)
    requires |s| >= 2 && Heap(s, |s|)
    ensures !Beats(s[1].rank, s[0].rank)
  {
    RootUnbeaten(s, 1);
  }

  /** Each item beats all later ones. */
  ghost predicate Falling(s: seq<Item>) {
    forall i, j :: 0 <= i < j < |s| ==> Beats(s[i].rank, s[j].rank)
  }

  /** Exchanging the second and third of at least three falling items leaves a heap that is not in order. */
  lemma ThirdOutOfOrder(best: seq<Item>)
    requires |best| >= 3 && Falling(best)
    ensures var s := Swapped(best, 1, 2);
      Heap(s, |s|) && multiset(s) == multiset(best) && Beats(s[2].rank, s[1].rank)
  {
    var s := Swapped(best, 1, 2);
    SwapPermutes(best, 1, 2);
    forall k | 0 < k < |s| ensures OrderedAt(s, k) {
      FallingOneWay(best, if Parent(k) == 0 then 0 else 3 - Parent(k), k);
    }
  }

  lemma FallingOneWay(best: seq<Item>, i: int, j: int)
    requires Falling(best)
    ensures 0 <= i < j < |best| ==> !Beats(best[j].rank, best[i].rank)
  {
  }

  /**
    The pending list is promised to be sorted.  Given items of different ranks, the first `m` are
    sorted in every queue of them exactly when `m` or their number is at most two.
   */
  lemma SortedExactlyWhen(best: seq<Item>, m: nat)
    requires Falling(best)
    ensures (forall s: seq<Item> | multiset(s) == multiset(best) && Heap(s, |s|) :: Sorted(s, m)) <==> m <= 2 || |best| <= 2
  {
    hide Falling;
    if m <= 2 || |best| <= 2 {
      forall s: seq<Item> | multiset(s) == multiset(best) && Heap(s, |s|) ensures Sorted(s, m) {
        assert |multiset(s)| == |multiset(best)|;
        if |s| >= 2 {
          FirstTwoInOrder(s);
        }
      }
    } else {
      ThirdOutOfOrder(best);
      var s := Swapped(best, 1, 2);
      assert !Sorted(s, m);
    }
  }

  function PushAll(s: seq<Item>): seq<Item> {
    if s == [] then [] else Push(PushAll(s[..|s| - 1]), s[|s| - 1])
  }

  /** Every heap arises: pushing its items in order leaves each where it is put. */
  lemma {:induction false} HeapIsPushed(s: seq<Item>)
    requires Heap(s, |s|)
    ensures PushAll(s) == s
  {
    if s != [] {
      var init := s[..|s| - 1];
      forall k | 0 < k < |init| ensures OrderedAt(init, k) {
        assert OrderedAt(s, k);
      }
      HeapIsPushed(init);
      assert init + [s[|s| - 1]] == s;
      assert |s| > 1 ==> OrderedAt(s, |s| - 1);
    }
  }

  // ---------- Draining ----------

  /** Repeatedly take the first item of the queue and remove it. */
  function Drain(s: seq<Item>): seq<Item>
    decreases |s|
  {
    if s == [] then [] else [s[0]] + Drain(RemoveAt(s, 0))
  }

  lemma DrainedWasQueued(s: seq<Item>, drained: seq<Item>, j: nat)
    requires s != [] && Heap(s, |s|) && j < |drained| && multiset(drained) == multiset(s) - multiset{s[0]}
    ensures !Beats(drained[j].rank, s[0].rank)
  {
    assert drained[j] in multiset(drained);
    assert drained[j] in multiset(s);
    var k :| 0 <= k < |s| && s[k] == drained[j];
    RootUnbeaten(s, k);
  }

  /** Draining yields every item exactly once, and no later item beats an earlier one. */
  lemma {:induction false} DrainOrder(s: seq<Item>)
    requires Heap(s, |s|)
    ensures multiset(Drain(s)) == multiset(s)
    ensures forall i, j :: 0 <= i < j < |Drain(s)| ==> !Beats(Drain(s)[j].rank, Drain(s)[i].rank)
    decreases |s|
  {
    hide Heap, Beats, RemoveAt, Precedes;
    if s != [] {
      var rest := RemoveAt(s, 0);
      RemoveAtIsHeap(s, 0);
      DrainOrder(rest);
      assert s[0] in multiset(s);
      forall j | 0 <= j < |Drain(rest)| ensures !Beats(Drain(rest)[j].rank, s[0].rank) {
        DrainedWasQueued(s, Drain(rest), j);
      }
    }
  }
}
