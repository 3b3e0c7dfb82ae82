/**
  The Kademlia routing table (code/go/pkg/p2p/discovery.go): 256 buckets of nodes, filed by the
  first byte in which a node's key differs from the local key.

  Distances are 16 bytes, compared from the left; they are related to the numbers they spell.
  Main results: every operation keeps the table well formed, a higher bucket is strictly farther
  away, and a search returns the nearest nodes, nearest first.
 */
module Kademlia {

  type Bytes = seq<bv8>

  const K: nat := 20
  const BUCKETS: nat := 256
  const KEY_BYTES: nat := 16

  /** `ip` is the address in one canonical form, so that equal addresses are equal values. */
  datatype Node = Node(key: Bytes, ip: Bytes, port: nat)

  // ---------- Distances ----------

  function XorAt(a: Bytes, b: Bytes, i: nat): bv8 {
    if i < |a| && i < |b| then a[i] ^ b[i] else 0
  }

  /** Keys are cut or zero-extended to 16 bytes; bytes missing on either side count as equal. */
  function Distance(a: Bytes, b: Bytes): (d: Bytes)
    ensures |d| == KEY_BYTES
    ensures forall i :: 0 <= i < KEY_BYTES ==> d[i] == XorAt(a, b, i)
  {
    seq(KEY_BYTES, i requires 0 <= i < KEY_BYTES => XorAt(a, b, i))
  }

  method XorDistance(key1: Bytes, key2: Bytes) returns (result: Bytes)
    ensures result == Distance(key1, key2)
  {
    var buffer := new bv8[KEY_BYTES](_ => 0);
    var minLen := KEY_BYTES;
    if |key1| < minLen {
      minLen := |key1|;
    }
    if |key2| < minLen {
      minLen := |key2|;
    }
    for i := 0 to minLen
      invariant forall k :: 0 <= k < i ==> buffer[k] == XorAt(key1, key2, k)
      invariant forall k :: i <= k < KEY_BYTES ==> buffer[k] == 0
    {
      buffer[i] := key1[i] ^ key2[i];
    }
    return buffer[..];
  }

  /** Byte strings of equal length compared from the left: -1, 0 or 1. */
  function Compare(a: Bytes, b: Bytes): int
    requires |a| == |b|
  {
    if a == [] then 0 else
      var rest := Compare(a[..|a| - 1], b[..|b| - 1]);
      if rest != 0 then rest
      else if a[|a| - 1] < b[|b| - 1] then -1
      else if a[|a| - 1] > b[|b| - 1] then 1
      else 0
  }

  /** The number a byte string spells, most significant byte first. */
  function Number(d: Bytes): nat {
    if d == [] then 0 else 256 * Number(d[..|d| - 1]) + d[|d| - 1] as nat
  }

  lemma ByteOrder(a: bv8, b: bv8)
    ensures a < b <==> (a as int) < (b as int)
    ensures 0 <= a as int < 256
  {
  }

  /** Comparing from the left is comparing the numbers. */
  lemma {:induction false} CompareIsNumeric(a: Bytes, b: Bytes)
    requires |a| == |b|
    ensures Compare(a, b) == if Number(a) < Number(b) then -1 else if Number(a) > Number(b) then 1 else 0
  {
    if a != [] {
      CompareIsNumeric(a[..|a| - 1], b[..|b| - 1]);
      ByteOrder(a[|a| - 1], b[|b| - 1]);
      ByteOrder(b[|b| - 1], a[|a| - 1]);
    }
  }

  lemma {:induction false} FirstDifferenceDecides(a: Bytes, b: Bytes, i: nat)
    requires i < |a| == |b| && a[..i] == b[..i] && a[i] > b[i]
    ensures Compare(a, b) == 1
    decreases |a|
  {
    var x, y := a[..|a| - 1], b[..|b| - 1];
    if i == |a| - 1 {
      SameCompares(x);
    } else {
      assert x[..i] == a[..i] && y[..i] == b[..i];
      FirstDifferenceDecides(x, y, i);
    }
  }

  lemma SameCompares(a: Bytes)
    ensures Compare(a, a) == 0
  {
  }

  /** Compares as far as both reach. */
  method CompareDistance(d1: Bytes, d2: Bytes) returns (r: int)
    ensures var n := if |d1| <= |d2| then |d1| else |d2|;
      r == Compare(d1[..n], d2[..n])
  {
    ghost var n := if |d1| <= |d2| then |d1| else |d2|;
    var i := 0;
    while i < |d1| && i < |d2|
      invariant 0 <= i <= n
      invariant d1[..i] == d2[..i]
    {
      assert d1[..n][..i] == d1[..i] && d2[..n][..i] == d2[..i];
      if d1[i] < d2[i] {
        ComparesAt(d2[..n], d1[..n], i);
        return -1;
      }
      if d1[i] > d2[i] {
        ComparesAt(d1[..n], d2[..n], i);
        return 1;
      }
      i := i + 1;
    }
    SameCompares(d1[..n]);
    return 0;
  }

  lemma ComparesAt(a: Bytes, b: Bytes, i: nat)
    requires i < |a| == |b| && a[..i] == b[..i] && a[i] > b[i]
    ensures Compare(a, b) == 1 && Compare(b, a) == -1
  {
    FirstDifferenceDecides(a, b, i);
    CompareIsNumeric(a, b);
    CompareIsNumeric(b, a);
  }

  // ---------- Buckets ----------

  /** The first non-zero byte, or the length. */
  function FirstNonZero(d: Bytes): (i: nat)
    ensures i <= |d| && (i < |d| ==> d[i] != 0)
    ensures forall k :: 0 <= k < i ==> d[k] == 0
  {
    if d == [] then 0
    else if d[0] != 0 then 0
    else
      var rest := FirstNonZero(d[1..]);
      assert forall k :: 0 < k < 1 + rest ==> d[k] == d[1..][k - 1];
      1 + rest
  }

  function BucketIndex(myKey: Bytes, key: Bytes): (i: nat)
    ensures i < BUCKETS
  {
    var f := FirstNonZero(Distance(myKey, key));
    if f == KEY_BYTES then 0 else 127 - f
  }

  function Mask(bit: nat): bv8
    requires bit < 8
  {
    (1 as bv8) << (7 - bit)
  }

  ghost predicate LeadingZeros(b: bv8, n: nat)
    requires n <= 8
  {
    n == 0 || (LeadingZeros(b, n - 1) && b & Mask(n - 1) == 0)
  }

  lemma NoBitsYet(b: bv8)
    ensures LeadingZeros(b, 0)
  {
  }

  lemma NextBit(b: bv8, n: nat)
    requires n < 8
    ensures LeadingZeros(b, n + 1) <==> LeadingZeros(b, n) && b & Mask(n) == 0
  {
  }

  lemma EightZeroBits(b: bv8)
    requires LeadingZeros(b, 8)
    ensures b == 0
  {
    assert LeadingZeros(b, 7) && LeadingZeros(b, 6) && LeadingZeros(b, 5) && LeadingZeros(b, 4);
    assert LeadingZeros(b, 3) && LeadingZeros(b, 2) && LeadingZeros(b, 1);
  }

  /**
    Scans the distance bit by bit and answers with the byte the first set bit is in.  The source's
    guard against a distance shorter than 16 bytes cannot fire.
   */
  method CalculateBucketIndex(myKey: Bytes, nodeKey: Bytes) returns (index: nat)
    ensures index == BucketIndex(myKey, nodeKey)
  {
    hide Distance, FirstNonZero, LeadingZeros;
    var xor := XorDistance(myKey, nodeKey);
    NoBitsYet(xor[0]);
    for i := 0 to 128
      invariant forall k :: 0 <= k < i / 8 ==> xor[k] == 0
      invariant i < 128 ==> LeadingZeros(xor[i / 8], i % 8)
    {
      var byteIndex, bitIndex := i / 8, i % 8;
      NextBit(xor[byteIndex], bitIndex);
      if xor[byteIndex] & Mask(bitIndex) != 0 {
        NonZeroFound(xor, byteIndex, Mask(bitIndex));
        return 127 - byteIndex;
      }
      if bitIndex == 7 {
        EightZeroBits(xor[byteIndex]);
        if byteIndex < 15 {
          NoBitsYet(xor[byteIndex + 1]);
        }
      }
    }
    AllZero(xor);
    return 0;
  }

  lemma NonZeroFound(d: Bytes, i: nat, mask: bv8)
    requires i < |d| && d[i] & mask != 0 && forall k :: 0 <= k < i ==> d[k] == 0
    ensures FirstNonZero(d) == i
  {
    NoBitsInZero(mask);
    assert d[i] != 0;
  }

  lemma NoBitsInZero(mask: bv8)
    ensures 0 & mask == 0
  {
  }

  lemma AllZero(d: Bytes)
    requires forall k :: 0 <= k < |d| ==> d[k] == 0
    ensures FirstNonZero(d) == |d|
  {
  }

  // ---------- Bytes instead of bits ----------

  predicate BitSet(d: Bytes, i: nat)
    requires i < 8 * |d|
  {
    d[i / 8] & Mask(i % 8) != 0
  }

  /** The first set bit from `i` on, or the number of bits. */
  function FirstSetBit(d: Bytes, i: nat): (k: nat)
    requires i <= 8 * |d|
    ensures i <= k <= 8 * |d| && (k < 8 * |d| ==> BitSet(d, k))
    ensures forall j :: i <= j < k ==> !BitSet(d, j)
    decreases 8 * |d| - i
  {
    if i == 8 * |d| || BitSet(d, i) then i else FirstSetBit(d, i + 1)
  }

  /** The index by bits: one bucket for each of the 128 bits. */
  function BitIndex(myKey: Bytes, key: Bytes): nat {
    var k := FirstSetBit(Distance(myKey, key), 0);
    if k == 128 then 0 else 127 - k
  }

  lemma {:induction false} UnsetBits(d: Bytes, j: nat, n: nat)
    requires j < |d| && n <= 8 && forall i :: 8 * j <= i < 8 * j + n ==> !BitSet(d, i)
    ensures LeadingZeros(d[j], n)
  {
    if n > 0 {
      UnsetBits(d, j, n - 1);
      assert !BitSet(d, 8 * j + (n - 1));
      assert (8 * j + (n - 1)) / 8 == j && (8 * j + (n - 1)) % 8 == n - 1;
    }
  }

  lemma FirstSetBitIsInFirstByte(d: Bytes)
    ensures FirstSetBit(d, 0) / 8 == FirstNonZero(d)
  {
    hide FirstNonZero, LeadingZeros;
    var k := FirstSetBit(d, 0);
    forall j | 0 <= j < k / 8 ensures d[j] == 0 {
      UnsetBits(d, j, 8);
      EightZeroBits(d[j]);
    }
    if k < 8 * |d| {
      NonZeroFound(d, k / 8, Mask(k % 8));
    } else {
      AllZero(d);
    }
  }

  /** A bit of the distance is set exactly when both keys have it and differ in it. */
  lemma DistanceBit(a: Bytes, b: Bytes, i: nat)
    requires i < 8 * KEY_BYTES
    ensures BitSet(Distance(a, b), i) <==> i < 8 * |a| && i < 8 * |b| && BitSet(a, i) != BitSet(b, i)
  {
    if i < 8 * |a| && i < 8 * |b| {
      XorBit(a[i / 8], b[i / 8], i % 8);
    } else {
      NoBitsInZero(Mask(i % 8));
    }
  }

  lemma XorBit(x: bv8, y: bv8, bit: nat)
    requires bit < 8
    ensures (x ^ y) & Mask(bit) != 0 <==> (x & Mask(bit) != 0) != (y & Mask(bit) != 0)
  {
    OneBit(bit);
    XorMasked(x, y, Mask(bit));
  }

  lemma XorMasked(x: bv8, y: bv8, m: bv8)
    requires m & (m - 1) == 0
    ensures (x ^ y) & m != 0 <==> (x & m != 0) != (y & m != 0)
  {
  }

  lemma XorZeroExactlyWhen(x: bv8, y: bv8)
    ensures x ^ y == 0 <==> x == y
    ensures x ^ y == y ^ x
  {
  }

  lemma {:induction false} ZeroNumber(d: Bytes)
    ensures Number(d) == 0 <==> forall i :: 0 <= i < |d| ==> d[i] == 0
  {
    if d != [] {
      ZeroNumber(d[..|d| - 1]);
      ByteOrder(0, d[|d| - 1]);
    }
  }

  /** The distance is zero exactly for equal keys, and the same both ways. */
  lemma DistanceIsMetric(a: Bytes, b: Bytes)
    requires |a| == KEY_BYTES && |b| == KEY_BYTES
    ensures Away(a, b) == 0 <==> a == b
    ensures Away(a, b) == Away(b, a)
  {
    forall i | 0 <= i < KEY_BYTES
      ensures Distance(a, b)[i] == 0 <==> a[i] == b[i]
      ensures Distance(a, b)[i] == Distance(b, a)[i]
    {
      XorZeroExactlyWhen(a[i], b[i]);
    }
    ZeroNumber(Distance(a, b));
    assert Distance(a, b) == Distance(b, a);
  }

  /** A byte whose bits up to the `n`-th are unset is below that bit. */
  lemma {:induction false} SmallByte(b: bv8, n: nat)
    requires n < 8 && LeadingZeros(b, n + 1)
    ensures b < Mask(n)
  {
    if n == 0 {
      TopBit(b);
    } else {
      NextBit(b, n);
      SmallByte(b, n - 1);
      MaskDoubles(n);
      NextSmaller(b, Mask(n));
    }
  }

  lemma TopBit(b: bv8)
    requires LeadingZeros(b, 1)
    ensures b < Mask(0)
  {
    assert LeadingZeros(b, 0) && b & Mask(0) == 0;
    assert b & 0x80 == 0;
  }

  lemma MaskDoubles(n: nat)
    requires 0 < n < 8
    ensures Mask(n) <= 0x40 && Mask(n - 1) == Mask(n) + Mask(n) && Mask(n) & (Mask(n) - 1) == 0
  {
    if n == 1 { assert Mask(1) == 0x40 && Mask(0) == 0x80; }
    if n == 2 { assert Mask(2) == 0x20 && Mask(1) == 0x40; }
    if n == 3 { assert Mask(3) == 0x10 && Mask(2) == 0x20; }
    if n == 4 { assert Mask(4) == 0x08 && Mask(3) == 0x10; }
    if n == 5 { assert Mask(5) == 0x04 && Mask(4) == 0x08; }
    if n == 6 { assert Mask(6) == 0x02 && Mask(5) == 0x04; }
    if n == 7 { assert Mask(7) == 0x01 && Mask(6) == 0x02; }
  }

  lemma NextSmaller(b: bv8, m: bv8)
    requires m <= 0x40 && m & (m - 1) == 0 && b < m + m && b & m == 0
    ensures b < m
  {
  }

  lemma OneBit(n: nat)
    requires n < 8
    ensures Mask(n) & (Mask(n) - 1) == 0
  {
    if n == 0 {
      assert Mask(0) == 0x80;
    } else {
      MaskDoubles(n);
    }
  }

  lemma BigByte(b: bv8, n: nat)
    requires n < 8 && b & Mask(n) != 0
    ensures b >= Mask(n)
  {
    OneBit(n);
    AtLeast(b, Mask(n));
  }

  lemma AtLeast(b: bv8, m: bv8)
    requires m & (m - 1) == 0 && b & m != 0
    ensures b >= m
  {
  }

  /** A key that agrees with the target in its first `n` + 1 bits is strictly nearer than one that agrees in `n` and not in the next. */
  lemma LongerPrefixIsNearer(target: Bytes, a: Bytes, b: Bytes, n: nat)
    requires |target| == KEY_BYTES && |a| == KEY_BYTES && |b| == KEY_BYTES && n < 8 * KEY_BYTES
    requires forall i :: 0 <= i <= n ==> BitSet(a, i) == BitSet(target, i)
    requires forall i :: 0 <= i < n ==> BitSet(b, i) == BitSet(target, i)
    requires BitSet(b, n) != BitSet(target, n)
    ensures Away(target, a) < Away(target, b)
  {
    hide Distance, BitSet, LeadingZeros;
    var d, e := Distance(target, a), Distance(target, b);
    forall i | 0 <= i <= n ensures !BitSet(d, i) && (BitSet(e, i) <==> i == n) {
      DistanceBit(target, a, i);
      DistanceBit(target, b, i);
    }
    NearerByBits(d, e, n);
  }

  lemma NearerByBits(d: Bytes, e: Bytes, n: nat)
    requires |d| == |e| && n < 8 * |d|
    requires forall i :: 0 <= i <= n ==> !BitSet(d, i)
    requires forall i :: 0 <= i < n ==> !BitSet(e, i)
    requires BitSet(e, n)
    ensures Number(d) < Number(e)
  {
    hide LeadingZeros, Number;
    var byte := n / 8;
    forall j | 0 <= j < byte ensures d[j] == 0 && e[j] == 0 {
      UnsetBits(d, j, 8);
      UnsetBits(e, j, 8);
      EightZeroBits(d[j]);
      EightZeroBits(e[j]);
    }
    UnsetBits(d, byte, n % 8 + 1);
    SmallByte(d[byte], n % 8);
    assert e[byte] & Mask(n % 8) != 0;
    BigByte(e[byte], n % 8);
    assert e[..byte] == d[..byte];
    FirstDifferenceDecides(e, d, byte);
    CompareIsNumeric(e, d);
  }

  /** The byte index is the bit index exactly for keys that agree or differ in their very first bit. */
  lemma BytesMatchBitsExactlyWhen(myKey: Bytes, key: Bytes)
    ensures BucketIndex(myKey, key) == BitIndex(myKey, key) <==>
            (forall i :: 0 <= i < KEY_BYTES ==> Distance(myKey, key)[i] == 0) || BitSet(Distance(myKey, key), 0)
  {
    hide Distance, FirstNonZero, FirstSetBit, BitSet;
    var d := Distance(myKey, key);
    FirstSetBitIsInFirstByte(d);
    if forall i :: 0 <= i < KEY_BYTES ==> d[i] == 0 {
      AllZero(d);
    }
    assert BitSet(d, 0) <==> FirstSetBit(d, 0) == 0;
  }

  /** Two keys share a bucket exactly when they first differ from the local key in the same byte. */
  lemma SameBucketExactlyWhen(myKey: Bytes, a: Bytes, b: Bytes)
    ensures BucketIndex(myKey, a) == BucketIndex(myKey, b) <==>
            FirstNonZero(Distance(myKey, a)) == FirstNonZero(Distance(myKey, b))
  {
  }

  predicate UsedIndex(i: nat) {
    i == 0 || 112 <= i <= 127
  }

  /** Only seventeen of the buckets are ever used. */
  lemma UsedExactlyWhen(i: nat)
    ensures (exists myKey, key :: BucketIndex(myKey, key) == i) <==> UsedIndex(i)
  {
    hide FirstNonZero;
    if UsedIndex(i) {
      var f := if i == 0 then KEY_BYTES else 127 - i;
      var myKey: Bytes := seq(KEY_BYTES, _ => 0);
      var key: Bytes := seq(KEY_BYTES, k => if k == f then 1 else 0);
      var d := Distance(myKey, key);
      forall k | 0 <= k < KEY_BYTES ensures d[k] == if k == f then 1 else 0 {
        XorWithZero(key[k]);
      }
      if f < KEY_BYTES {
        AndWithAllBits();
        NonZeroFound(d, f, 0xFF);
      } else {
        AllZero(d);
      }
      assert BucketIndex(myKey, key) == i;
    }
  }

  lemma XorWithZero(b: bv8)
    ensures 0 ^ b == b
  {
  }

  lemma AndWithAllBits()
    ensures (1 as bv8) & 0xFF != 0
  {
  }

  function Away(target: Bytes, key: Bytes): nat {
    Number(Distance(target, key))
  }

  /** A node in a higher bucket is strictly farther from the local key than one in a lower bucket. */
  lemma HigherBucketIsFarther(myKey: Bytes, a: Bytes, b: Bytes)
    requires BucketIndex(myKey, a) > BucketIndex(myKey, b)
    ensures Away(myKey, a) > Away(myKey, b)
  {
    var d, e := Distance(myKey, a), Distance(myKey, b);
    var f := FirstNonZero(d);
    assert f < FirstNonZero(e);
    assert d[..f] == e[..f];
    FirstDifferenceDecides(d, e, f);
    CompareIsNumeric(d, e);
  }

  // ---------- The table as a value ----------

  type Table = seq<seq<Node>>

  ghost predicate NoDuplicates(bucket: seq<Node>) {
    forall i, j :: 0 <= i < j < |bucket| ==> bucket[i] != bucket[j]
  }

  /** At most K distinct nodes in a bucket, all of them filed there by their key, and not the local node. */
  ghost predicate BucketOk(me: Node, bucket: seq<Node>, i: nat) {
    && |bucket| <= K
    && NoDuplicates(bucket)
    && forall k :: 0 <= k < |bucket| ==> bucket[k] != me && BucketIndex(me.key, bucket[k].key) == i
  }

  ghost predicate TableOk(me: Node, table: Table) {
    && |table| == BUCKETS
    && forall i :: 0 <= i < BUCKETS ==> BucketOk(me, table[i], i)
  }

  function Empty(): Table {
    seq(BUCKETS, _ => [])
  }

  function Added(me: Node, table: Table, node: Node): Table
    requires |table| == BUCKETS
  {
    var i := BucketIndex(me.key, node.key);
    if node == me || node in table[i] || |table[i]| >= K then table
    else table[i := table[i] + [node]]
  }

  function AddedAll(me: Node, table: Table, nodes: seq<Node>): (r: Table)
    requires |table| == BUCKETS
    ensures |r| == BUCKETS
  {
    if nodes == [] then table else Added(me, AddedAll(me, table, nodes[..|nodes| - 1]), nodes[|nodes| - 1])
  }

  /** The position of the first node with this key, or the length. */
  function Position(bucket: seq<Node>, key: Bytes): (p: nat)
    ensures p <= |bucket| && (p < |bucket| ==> bucket[p].key == key)
    ensures forall k :: 0 <= k < p ==> bucket[k].key != key
  {
    if bucket == [] || bucket[0].key == key then 0
    else
      var rest := Position(bucket[1..], key);
      assert forall k :: 0 < k < 1 + rest ==> bucket[k] == bucket[1..][k - 1];
      1 + rest
  }

  function CutOut(bucket: seq<Node>, p: nat): seq<Node> {
    if p < |bucket| then bucket[..p] + bucket[p + 1..] else bucket
  }

  function Removed(me: Node, table: Table, key: Bytes): Table
    requires |table| == BUCKETS
  {
    var i := BucketIndex(me.key, key);
    table[i := CutOut(table[i], Position(table[i], key))]
  }

  type Routes = map<Bytes, Node>

  function RoutesAdded(me: Node, hash: Bytes -> Bytes, table: Table, routes: Routes, node: Node): Routes
    requires |table| == BUCKETS
  {
    if node == me || node in table[BucketIndex(me.key, node.key)] then routes else routes[hash(node.key) := node]
  }

  /** Unlike an addition, bootstrapping enters no route for a node whose bucket is full. */
  function RoutesBooted(me: Node, hash: Bytes -> Bytes, table: Table, routes: Routes, nodes: seq<Node>): Routes
    requires |table| == BUCKETS
  {
    if nodes == [] then routes else
      var init, node := nodes[..|nodes| - 1], nodes[|nodes| - 1];
      var before, earlier := AddedAll(me, table, init), RoutesBooted(me, hash, table, routes, init);
      if |before[BucketIndex(me.key, node.key)]| >= K then earlier else RoutesAdded(me, hash, before, earlier, node)
  }

  function RoutesRemoved(me: Node, hash: Bytes -> Bytes, table: Table, routes: Routes, key: Bytes): Routes
    requires |table| == BUCKETS
  {
    var bucket := table[BucketIndex(me.key, key)];
    if Position(bucket, key) < |bucket| then routes - {hash(key)} else routes
  }

  ghost predicate InTable(table: Table, node: Node) {
    exists i :: 0 <= i < |table| && node in table[i]
  }

  /** Every node of the table has a route under the hash of its key. */
  ghost predicate Routed(hash: Bytes -> Bytes, table: Table, routes: Routes) {
    forall node :: InTable(table, node) ==> hash(node.key) in routes
  }

  /** Exactly the node is added, unless it is the local one or its bucket is full. */
  lemma AddedMembers(me: Node, table: Table, node: Node, other: Node)
    requires |table| == BUCKETS
    ensures InTable(Added(me, table, node), other) <==>
            InTable(table, other) || (other == node && node != me && |table[BucketIndex(me.key, node.key)]| < 20)
  {
    var i := BucketIndex(me.key, node.key);
    hide BucketIndex;
    var after := Added(me, table, node);
    if InTable(after, other) {
      var j :| 0 <= j < |after| && other in after[j];
      assert other in table[j] || other == node;
    }
    if InTable(table, other) {
      var j :| 0 <= j < |table| && other in table[j];
      assert other in after[j];
    }
    if other == node && node != me && |table[i]| < K {
      assert other in after[i];
    }
  }

  lemma AddingKeepsRouted(me: Node, hash: Bytes -> Bytes, table: Table, routes: Routes, node: Node)
    requires |table| == BUCKETS && Routed(hash, table, routes)
    ensures Routed(hash, Added(me, table, node), RoutesAdded(me, hash, table, routes, node))
  {
    hide BucketIndex, InTable;
    forall other | InTable(Added(me, table, node), other)
      ensures hash(other.key) in RoutesAdded(me, hash, table, routes, node)
    {
      AddedMembers(me, table, node, other);
    }
  }

  lemma {:induction false} BootingKeepsRouted(me: Node, hash: Bytes -> Bytes, table: Table, routes: Routes, nodes: seq<Node>)
    requires |table| == BUCKETS && Routed(hash, table, routes)
    ensures Routed(hash, AddedAll(me, table, nodes), RoutesBooted(me, hash, table, routes, nodes))
  {
    if nodes != [] {
      var init, node := nodes[..|nodes| - 1], nodes[|nodes| - 1];
      hide BucketIndex, Routed;
      BootingKeepsRouted(me, hash, table, routes, init);
      AddingKeepsRouted(me, hash, AddedAll(me, table, init), RoutesBooted(me, hash, table, routes, init), node);
    }
  }

  /**
    A removal deletes the route of the key, whichever node it leads to: all remaining nodes stay
    routed exactly when the key is not found, or no node but the one removed has a key of that hash.
   */
  lemma RemovalKeepsRoutedExactlyWhen(me: Node, hash: Bytes -> Bytes, table: Table, routes: Routes, key: Bytes)
    requires TableOk(me, table) && Routed(hash, table, routes)
    ensures var bucket := table[BucketIndex(me.key, key)];
      var p := Position(bucket, key);
      Routed(hash, Removed(me, table, key), RoutesRemoved(me, hash, table, routes, key)) <==>
      p == |bucket| || forall other :: InTable(table, other) && other != bucket[p] ==> hash(other.key) != hash(key)
  {
    var i := BucketIndex(me.key, key);
    var p := Position(table[i], key);
    if p < |table[i]| {
      forall other ensures InTable(Removed(me, table, key), other) <==> InTable(table, other) && other != table[i][p] {
        RemovedMembers(me, table, key, other);
      }
      hide BucketIndex, InTable, BucketOk, CutOut;
    } else {
      assert Removed(me, table, key) == table;
    }
  }

  lemma RemovedMembers(me: Node, table: Table, key: Bytes, other: Node)
    requires TableOk(me, table)
    requires Position(table[BucketIndex(me.key, key)], key) < |table[BucketIndex(me.key, key)]|
    ensures var bucket := table[BucketIndex(me.key, key)];
      InTable(Removed(me, table, key), other) <==> InTable(table, other) && other != bucket[Position(bucket, key)]
  {
    var i := BucketIndex(me.key, key);
    var p, after := Position(table[i], key), Removed(me, table, key);
    OnlyInItsBucket(me, table, i, p);
    hide BucketIndex;
    CutOutMembers(me, table[i], i, p, other);
    if InTable(table, other) && other != table[i][p] {
      var j :| 0 <= j < |table| && other in table[j];
      assert other in after[j];
    }
    if InTable(after, other) {
      var j :| 0 <= j < |after| && other in after[j];
      assert other in table[j];
    }
  }

  /** A node of a well-formed table is in one bucket only. */
  lemma OnlyInItsBucket(me: Node, table: Table, i: nat, p: nat)
    requires TableOk(me, table) && i < BUCKETS && p < |table[i]|
    ensures forall j :: 0 <= j < BUCKETS && j != i ==> table[i][p] !in table[j]
  {
    hide BucketIndex;
  }

  lemma CutOutMembers(me: Node, bucket: seq<Node>, i: nat, p: nat, other: Node)
    requires BucketOk(me, bucket, i) && p < |bucket|
    ensures other in CutOut(bucket, p) <==> other in bucket && other != bucket[p]
  {
    hide BucketIndex;
    assert bucket == bucket[..p] + [bucket[p]] + bucket[p + 1..];
  }

  /** Two nodes with one key, of which one is removed: the other stays in the table without a route. */
  lemma SecondNodeLosesRoute(me: Node, hash: Bytes -> Bytes, first: Node, second: Node)
    requires first != second && first.key == second.key && first != me && second != me
    ensures var t1 := Added(me, Empty(), first);
      var t2 := Added(me, t1, second);
      var routes := RoutesAdded(me, hash, t1, RoutesAdded(me, hash, Empty(), map[], first), second);
      && Routed(hash, t2, routes)
      && InTable(Removed(me, t2, first.key), second)
      && hash(second.key) !in RoutesRemoved(me, hash, t2, routes, first.key)
  {
    hide BucketIndex;
    var i := BucketIndex(me.key, first.key);
    var t1 := Added(me, Empty(), first);
    var t2 := Added(me, t1, second);
    AddingKeepsRouted(me, hash, Empty(), map[], first);
    AddingKeepsRouted(me, hash, t1, RoutesAdded(me, hash, Empty(), map[], first), second);
    assert t2[i] == [first, second];
    assert Removed(me, t2, first.key)[i] == [second];
    assert second in Removed(me, t2, first.key)[i];
  }

  lemma AddedOk(me: Node, table: Table, node: Node)
    requires TableOk(me, table)
    ensures TableOk(me, Added(me, table, node))
  {
    hide BucketIndex, NoDuplicates;
    var i := BucketIndex(me.key, node.key);
    if node !in table[i] {
      StillDistinct(table[i], node);
    }
  }

  lemma StillDistinct(bucket: seq<Node>, node: Node)
    requires NoDuplicates(bucket) && node !in bucket
    ensures NoDuplicates(bucket + [node])
  {
  }

  lemma {:induction false} AddedAllOk(me: Node, table: Table, nodes: seq<Node>)
    requires TableOk(me, table)
    ensures TableOk(me, AddedAll(me, table, nodes))
  {
    hide TableOk, Added;
    TableHasBuckets(me, table);
    if nodes != [] {
      AddedAllOk(me, table, nodes[..|nodes| - 1]);
      AddedOk(me, AddedAll(me, table, nodes[..|nodes| - 1]), nodes[|nodes| - 1]);
    }
  }

  lemma TableHasBuckets(me: Node, table: Table)
    requires TableOk(me, table)
    ensures |table| == BUCKETS
  {
  }

  lemma RemovedOk(me: Node, table: Table, key: Bytes)
    requires TableOk(me, table)
    ensures TableOk(me, Removed(me, table, key))
  {
    hide BucketIndex;
    var i := BucketIndex(me.key, key);
    CutOutOk(me, table[i], i, Position(table[i], key));
  }

  lemma CutOutOk(me: Node, bucket: seq<Node>, i: nat, p: nat)
    requires BucketOk(me, bucket, i)
    ensures BucketOk(me, CutOut(bucket, p), i)
  {
    hide BucketIndex;
    if p < |bucket| {
      var r := CutOut(bucket, p);
      forall k, l | 0 <= k < l < |r| ensures r[k] != r[l] {
        CutOutAt(bucket, p, k);
        CutOutAt(bucket, p, l);
      }
      forall k | 0 <= k < |r| ensures r[k] != me && BucketIndex(me.key, r[k].key) == i {
        CutOutAt(bucket, p, k);
      }
    }
  }

  lemma CutOutAt(bucket: seq<Node>, p: nat, k: nat)
    requires p < |bucket| && k < |bucket| - 1
    ensures CutOut(bucket, p)[k] == bucket[if k < p then k else k + 1]
  {
  }

  // ---------- Searching ----------

  /** All nodes of the first `n` buckets, in table order. */
  function Flatten(table: Table, n: nat): seq<Node>
    requires n <= |table|
  {
    if n == 0 then [] else Flatten(table, n - 1) + table[n - 1]
  }

  lemma {:induction false} FlattenMembers(table: Table, n: nat, node: Node)
    requires n <= |table|
    ensures node in Flatten(table, n) <==> exists i :: 0 <= i < n && node in table[i]
  {
    if n > 0 {
      FlattenMembers(table, n - 1, node);
    }
  }

  /** The searched list has every node of the table, and nothing else. */
  lemma FlattenIsTable(table: Table, node: Node)
    ensures node in Flatten(table, |table|) <==> InTable(table, node)
  {
    FlattenMembers(table, |table|, node);
  }

  /** How many of the first `n` buckets can hold nodes. */
  function UsedBuckets(n: nat): nat {
    if n == 0 then 0 else UsedBuckets(n - 1) + if UsedIndex(n - 1) then 1 else 0
  }

  /** So the table holds at most 17 * 20 nodes. */
  lemma TableHoldsAtMost(me: Node, table: Table)
    requires TableOk(me, table)
    ensures forall i :: 0 <= i < BUCKETS && !UsedIndex(i) ==> table[i] == []
    ensures |Flatten(table, BUCKETS)| <= 340
  {
    hide BucketIndex;
    forall i | 0 <= i < BUCKETS && !UsedIndex(i) ensures table[i] == [] {
      UnusedIsEmpty(me, table[i], i);
    }
    FirstBucketsHoldAtMost(me, table, BUCKETS);
  }

  lemma UnusedIsEmpty(me: Node, bucket: seq<Node>, i: nat)
    requires BucketOk(me, bucket, i)
    ensures bucket == [] || UsedIndex(i)
  {
    hide BucketIndex;
    if bucket != [] {
      UsedExactlyWhen(i);
      assert BucketIndex(me.key, bucket[0].key) == i;
    }
  }

  lemma {:induction false} FirstBucketsHoldAtMost(me: Node, table: Table, n: nat)
    requires TableOk(me, table) && n <= BUCKETS
    ensures UsedBuckets(n) == if n == 0 then 0 else if n <= 112 then 1 else if n <= 128 then n - 111 else 17
    ensures |Flatten(table, n)| <= UsedBuckets(n) * K
  {
    hide BucketIndex, NoDuplicates;
    if n > 0 {
      FirstBucketsHoldAtMost(me, table, n - 1);
      UnusedIsEmpty(me, table[n - 1], n - 1);
    }
  }

  datatype Candidate = Candidate(node: Node, distance: Bytes)

  function Nodes(cs: seq<Candidate>): (r: seq<Node>)
    ensures |r| == |cs|
    ensures forall i :: 0 <= i < |cs| ==> r[i] == cs[i].node
  {
    seq(|cs|, i requires 0 <= i < |cs| => cs[i].node)
  }

  ghost predicate Measured(target: Bytes, cs: seq<Candidate>) {
    forall i :: 0 <= i < |cs| ==> cs[i].distance == Distance(target, cs[i].node.key)
  }

  ghost function Far(target: Bytes, c: Candidate): nat {
    Away(target, c.node.key)
  }

  /** Exchange sort: position `i` ends up with the nearest of what lies at or after it. */
  method SortByDistance(nodes: array<Candidate>, ghost target: Bytes)
    requires Measured(target, nodes[..])
    modifies nodes
    ensures Measured(target, nodes[..])
    ensures multiset(Nodes(nodes[..])) == old(multiset(Nodes(nodes[..])))
    ensures forall i, j :: 0 <= i < j < nodes.Length ==> Far(target, nodes[i]) <= Far(target, nodes[j])
  {
    hide Distance, Far, Number, Compare, Measured, Nodes;
    var i := 0;
    while i < nodes.Length - 1
      invariant 0 <= i <= nodes.Length
      invariant Measured(target, nodes[..])
      invariant multiset(Nodes(nodes[..])) == old(multiset(Nodes(nodes[..])))
      invariant forall p, q :: 0 <= p < i && p < q < nodes.Length ==> Far(target, nodes[p]) <= Far(target, nodes[q])
    {
      for j := i + 1 to nodes.Length
        invariant Measured(target, nodes[..])
        invariant multiset(Nodes(nodes[..])) == old(multiset(Nodes(nodes[..])))
        invariant forall p, q :: 0 <= p < i && p < q < nodes.Length ==> Far(target, nodes[p]) <= Far(target, nodes[q])
        invariant forall q :: i < q < j ==> Far(target, nodes[i]) <= Far(target, nodes[q])
      {
        FarIsNumber(target, nodes[..], i);
        FarIsNumber(target, nodes[..], j);
        var order := CompareDistance(nodes[i].distance, nodes[j].distance);
        WholeCompare(nodes[i].distance, nodes[j].distance);
        if order > 0 {
          SwapKeeps(target, nodes[..], i, j);
          ghost var before := nodes[..];
          nodes[i], nodes[j] := nodes[j], nodes[i];
          assert nodes[..] == before[i := before[j]][j := before[i]];
        }
      }
      i := i + 1;
    }
  }

  lemma WholeCompare(a: Bytes, b: Bytes)
    requires |a| == |b|
    ensures Compare(a[..|a|], b[..|b|]) == if Number(a) < Number(b) then -1 else if Number(a) > Number(b) then 1 else 0
  {
    assert a[..|a|] == a && b[..|b|] == b;
    CompareIsNumeric(a, b);
  }

  lemma FarIsNumber(target: Bytes, cs: seq<Candidate>, i: nat)
    requires Measured(target, cs) && i < |cs|
    ensures Far(target, cs[i]) == Number(cs[i].distance) && |cs[i].distance| == KEY_BYTES
  {
  }

  lemma SwapKeeps(target: Bytes, cs: seq<Candidate>, i: nat, j: nat)
    requires i < |cs| && j < |cs| && Measured(target, cs)
    ensures var swapped := cs[i := cs[j]][j := cs[i]];
      Measured(target, swapped) && multiset(Nodes(swapped)) == multiset(Nodes(cs))
  {
    var swapped, ns := cs[i := cs[j]][j := cs[i]], Nodes(cs);
    assert Nodes(swapped) == ns[i := ns[j]][j := ns[i]];
  }

  method CollectCandidates(table: Table, target: Bytes) returns (candidates: seq<Candidate>)
    ensures Measured(target, candidates) && Nodes(candidates) == Flatten(table, |table|)
  {
    hide Distance;
    candidates := [];
    for b := 0 to |table|
      invariant Measured(target, candidates) && Nodes(candidates) == Flatten(table, b)
    {
      for k := 0 to |table[b]|
        invariant Measured(target, candidates) && Nodes(candidates) == Flatten(table, b) + table[b][..k]
      {
        var distance := XorDistance(target, table[b][k].key);
        candidates := candidates + [Candidate(table[b][k], distance)];
      }
      assert table[b][..|table[b]|] == table[b];
    }
  }

  /** All keys of the table have sixteen bytes. */
  ghost predicate FullKeys(table: Table) {
    forall node :: InTable(table, node) ==> |node.key| == KEY_BYTES
  }

  /** What is nearest to the key of a stored node has that key. */
  lemma NearestHasKey(table: Table, target: Bytes, result: seq<Node>, others: seq<Node>)
    requires FullKeys(table) && |target| == KEY_BYTES && result != []
    requires multiset(result) + multiset(others) == multiset(Flatten(table, |table|))
    requires forall i, j :: 0 <= i < j < |result| ==> Away(target, result[i].key) <= Away(target, result[j].key)
    requires forall i, j :: 0 <= i < |result| && 0 <= j < |others| ==> Away(target, result[i].key) <= Away(target, others[j].key)
    ensures (exists node :: InTable(table, node) && node.key == target) ==> result[0].key == target
  {
    hide Away, Flatten, InTable;
    if stored :| InTable(table, stored) && stored.key == target {
      FlattenIsTable(table, stored);
      assert stored in multiset(Flatten(table, |table|));
      assert stored in multiset(result) || stored in multiset(others);
      assert result[0] in multiset(result);
      assert result[0] in multiset(Flatten(table, |table|));
      FlattenIsTable(table, result[0]);
      DistanceIsMetric(target, stored.key);
      DistanceIsMetric(target, result[0].key);
      assert Away(target, result[0].key) <= Away(target, stored.key) by {
        if stored in multiset(result) {
          var j :| 0 <= j < |result| && result[j] == stored;
        } else {
          var j :| 0 <= j < |others| && others[j] == stored;
        }
      }
    }
  }

  /** The `n` nearest nodes, nearest first; `others` are the remaining nodes of the table. */
  method FindClosestNodes(table: Table, target: Bytes, n: nat) returns (result: seq<Node>, ghost others: seq<Node>)
    ensures multiset(result) + multiset(others) == multiset(Flatten(table, |table|))
    ensures |result| == if n <= |Flatten(table, |table|)| then n else |Flatten(table, |table|)|
    ensures forall i, j :: 0 <= i < j < |result| ==> Away(target, result[i].key) <= Away(target, result[j].key)
    ensures forall i, j :: 0 <= i < |result| && 0 <= j < |others| ==> Away(target, result[i].key) <= Away(target, others[j].key)
    ensures FullKeys(table) && |target| == KEY_BYTES && n > 0 && (exists node :: InTable(table, node) && node.key == target) ==>
              result != [] && result[0].key == target
  {
    hide Distance, Number, Flatten, InTable, FullKeys, Away, Far, Measured, Nodes;
    var candidates := CollectCandidates(table, target);
    var sorted := new Candidate[|candidates|](i requires 0 <= i < |candidates| => candidates[i]);
    assert sorted[..] == candidates;
    SortByDistance(sorted, target);
    result := TakeFirst(sorted, n);
    others := Nodes(sorted[..])[|result|..];
    SearchResult(table, target, n, sorted[..], |result|);
    SearchFindsKey(table, target, n, result, others);
  }

  lemma SearchResult(table: Table, target: Bytes, n: nat, cs: seq<Candidate>, taken: nat)
    requires multiset(Nodes(cs)) == multiset(Flatten(table, |table|))
    requires forall i, j :: 0 <= i < j < |cs| ==> Far(target, cs[i]) <= Far(target, cs[j])
    requires taken == if n <= |cs| then n else |cs|
    ensures |Nodes(cs)| == |cs| == |Flatten(table, |table|)|
    ensures var result, others := Nodes(cs)[..taken], Nodes(cs)[taken..];
      && multiset(result) + multiset(others) == multiset(Flatten(table, |table|))
      && (forall i, j :: 0 <= i < j < |result| ==> Away(target, result[i].key) <= Away(target, result[j].key))
      && (forall i, j :: 0 <= i < |result| && 0 <= j < |others| ==> Away(target, result[i].key) <= Away(target, others[j].key))
  {
    hide Flatten, Far, Away, Nodes;
    assert |multiset(Nodes(cs))| == |multiset(Flatten(table, |table|))|;
    assert Nodes(cs) == Nodes(cs)[..taken] + Nodes(cs)[taken..];
    SortedSplit(target, cs, taken);
  }

  method TakeFirst(sorted: array<Candidate>, n: nat) returns (result: seq<Node>)
    ensures |result| == if n <= sorted.Length then n else sorted.Length
    ensures result == Nodes(sorted[..])[..|result|]
  {
    result := [];
    var i := 0;
    while i < sorted.Length && i < n
      invariant 0 <= i <= sorted.Length && i <= n
      invariant result == Nodes(sorted[..])[..i]
    {
      result := result + [sorted[i].node];
      i := i + 1;
    }
  }

  lemma SortedSplit(target: Bytes, cs: seq<Candidate>, n: nat)
    requires n <= |cs|
    requires forall i, j :: 0 <= i < j < |cs| ==> Far(target, cs[i]) <= Far(target, cs[j])
    ensures var front, back := Nodes(cs)[..n], Nodes(cs)[n..];
      && (forall i, j :: 0 <= i < j < |front| ==> Away(target, front[i].key) <= Away(target, front[j].key))
      && (forall i, j :: 0 <= i < |front| && 0 <= j < |back| ==> Away(target, front[i].key) <= Away(target, back[j].key))
  {
    hide Away;
    assert forall i :: 0 <= i < |cs| ==> Far(target, cs[i]) == Away(target, Nodes(cs)[i].key);
  }

  lemma SearchFindsKey(table: Table, target: Bytes, n: nat, result: seq<Node>, others: seq<Node>)
    requires multiset(result) + multiset(others) == multiset(Flatten(table, |table|))
    requires |result| == if n <= |Flatten(table, |table|)| then n else |Flatten(table, |table|)|
    requires forall i, j :: 0 <= i < j < |result| ==> Away(target, result[i].key) <= Away(target, result[j].key)
    requires forall i, j :: 0 <= i < |result| && 0 <= j < |others| ==> Away(target, result[i].key) <= Away(target, others[j].key)
    ensures FullKeys(table) && |target| == KEY_BYTES && n > 0 && (exists node :: InTable(table, node) && node.key == target) ==>
              result != [] && result[0].key == target
  {
    hide Away, Flatten, InTable, FullKeys;
    if FullKeys(table) && |target| == KEY_BYTES && n > 0 {
      if stored :| InTable(table, stored) && stored.key == target {
        FlattenIsTable(table, stored);
        NearestHasKey(table, target, result, others);
      }
    }
  }

  method Contains(bucket: seq<Node>, node: Node) returns (present: bool)
    ensures present <==> node in bucket
  {
    for k := 0 to |bucket|
      invariant node !in bucket[..k]
    {
      if bucket[k] == node {
        return true;
      }
    }
    assert bucket[..|bucket|] == bucket;
    return false;
  }

  // ---------- The table in place ----------

  class Routing {
    const myID: Node
    const hash: Bytes -> Bytes
    var buckets: Table
    var routing: Routes

    ghost predicate Valid()
      reads this
    {
      TableOk(myID, buckets)
    }

    constructor (myID: Node, hash: Bytes -> Bytes)
      ensures Valid() && this.myID == myID && this.hash == hash && buckets == Empty() && routing == map[]
      ensures Routed(hash, buckets, routing)
    {
      this.myID, this.hash := myID, hash;
      buckets := Empty();
      routing := map[];
    }

    method AddNode(node: Node)
      requires Valid()
      modifies this
      ensures Valid() && buckets == Added(myID, old(buckets), node)
      ensures routing == RoutesAdded(myID, hash, old(buckets), old(routing), node)
    {
      AddedOk(myID, buckets, node);
      hide TableOk;
      TableHasBuckets(myID, buckets);
      if node == myID {
        return;
      }
      var bucketIndex := CalculateBucketIndex(myID.key, node.key);
      var bucket := buckets[bucketIndex];
      var present := Contains(bucket, node);
      if present {
        return;
      }
      if |bucket| < K {
        buckets := buckets[bucketIndex := bucket + [node]];
      }
      routing := routing[hash(node.key) := node];
    }

    /** Adds the nodes one after the other, checking for room before checking for duplicates. */
    method Bootstrap(bootstrapNodes: seq<Node>)
      requires Valid()
      modifies this
      ensures Valid() && buckets == AddedAll(myID, old(buckets), bootstrapNodes)
      ensures routing == RoutesBooted(myID, hash, old(buckets), old(routing), bootstrapNodes)
    {
      AddedAllOk(myID, buckets, bootstrapNodes);
      hide TableOk, BucketIndex;
      TableHasBuckets(myID, buckets);
      for i := 0 to |bootstrapNodes|
        invariant buckets == AddedAll(myID, old(buckets), bootstrapNodes[..i])
        invariant routing == RoutesBooted(myID, hash, old(buckets), old(routing), bootstrapNodes[..i])
      {
        var node := bootstrapNodes[i];
        assert bootstrapNodes[..i + 1][..i] == bootstrapNodes[..i];
        if node != myID {
          var bucketIndex := CalculateBucketIndex(myID.key, node.key);
          var bucket := buckets[bucketIndex];
          if |bucket| < K {
            var present := Contains(bucket, node);
            if !present {
              buckets := buckets[bucketIndex := bucket + [node]];
              routing := routing[hash(node.key) := node];
            }
          }
        }
      }
      assert bootstrapNodes[..|bootstrapNodes|] == bootstrapNodes;
    }

    method RemoveNode(key: Bytes) returns (found: bool)
      requires Valid()
      modifies this
      ensures Valid() && buckets == Removed(myID, old(buckets), key)
      ensures routing == RoutesRemoved(myID, hash, old(buckets), old(routing), key)
      ensures found <==> exists node :: node in old(buckets)[BucketIndex(myID.key, key)] && node.key == key
    {
      RemovedOk(myID, buckets, key);
      hide TableOk;
      TableHasBuckets(myID, buckets);
      var bucketIndex := CalculateBucketIndex(myID.key, key);
      var bucket := buckets[bucketIndex];
      for i := 0 to |bucket|
        invariant i <= Position(bucket, key)
      {
        if bucket[i].key == key {
          assert Position(bucket, key) == i;
          assert bucket[i] in bucket;
          buckets := buckets[bucketIndex := bucket[..i] + bucket[i + 1..]];
          routing := routing - {hash(key)};
          return true;
        }
      }
      assert buckets[bucketIndex := bucket] == buckets;
      return false;
    }

    method ClearAll()
      modifies this
      ensures Valid() && buckets == Empty() && routing == map[]
    {
      buckets := Empty();
      routing := map[];
    }
  }
}
