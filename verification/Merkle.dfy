/**
  Merkle trees (code/go/pkg/crypto/hash.go and ComputeMerkleRoot in
  code/go/pkg/consensus/consensus.go).

  The hash is a parameter `H`; nothing is assumed about it except, where needed, that its results
  have 32 bytes.  Both implementations build the same tree: crypto.MerkleRoot with double SHA-256
  and consensus.ComputeMerkleRoot with single SHA-256.

  Main results: the proof built for a leaf is accepted (completeness), and an accepted proof for a
  different leaf exhibits, at a level named by the theorem, two distinct inputs of `H` with the
  same hash: one hashed by the verifier, one hashed by the tree builder (binding).
 */
module Merkle {

  type Bytes = seq<bv8>
  type Hash = Bytes -> Bytes

  datatype Result<T> = Ok(value: T) | IndexOutOfRange

  function DoubleHash(sha: Hash): Hash {
    x => sha(sha(x))
  }

  ghost predicate Hash32(H: Hash) {
    forall x :: |H(x)| == 32
  }

  ghost predicate NeverEmpty(H: Hash) {
    forall x :: H(x) != []
  }

  ghost predicate All32(hashes: seq<Bytes>) {
    forall k :: 0 <= k < |hashes| ==> |hashes[k]| == 32
  }

  ghost predicate AllNonEmpty(hashes: seq<Bytes>) {
    forall k :: 0 <= k < |hashes| ==> hashes[k] != []
  }

  // ---------- The tree ----------

  /** The bytes hashed into node `k` of the next level; an odd level repeats its last hash. */
  function NodeInput(level: seq<Bytes>, k: nat): Bytes
    requires 2 * k < |level|
  {
    level[2 * k] + if 2 * k + 1 < |level| then level[2 * k + 1] else level[2 * k]
  }

  function NextLevel(H: Hash, level: seq<Bytes>): (next: seq<Bytes>)
    ensures |next| == (|level| + 1) / 2
    ensures forall k :: 0 <= k < |next| ==> next[k] == H(NodeInput(level, k))
  {
    seq((|level| + 1) / 2, k requires 0 <= k < (|level| + 1) / 2 => H(NodeInput(level, k)))
  }

  function Root(H: Hash, hashes: seq<Bytes>): Bytes
    requires hashes != []
    decreases |hashes|
  {
    if |hashes| == 1 then hashes[0] else Root(H, NextLevel(H, hashes))
  }

  function Depth(leaves: nat): nat {
    if leaves <= 1 then 0 else 1 + Depth((leaves + 1) / 2)
  }

  /** The other child of the parent of leaf `i`; the leaf itself when it was repeated. */
  function Sibling(level: seq<Bytes>, i: nat): Bytes
    requires i < |level|
  {
    if i % 2 == 1 then level[i - 1] else if i + 1 < |level| then level[i + 1] else level[i]
  }

  function Proof(H: Hash, hashes: seq<Bytes>, i: nat): seq<Bytes>
    requires i < |hashes|
    decreases |hashes|
  {
    if |hashes| == 1 then [] else [Sibling(hashes, i)] + Proof(H, NextLevel(H, hashes), i / 2)
  }

  function Pow2(n: nat): (p: nat)
    ensures p >= 1
  {
    if n == 0 then 1 else 2 * Pow2(n - 1)
  }

  /** Two full trees side by side: their roots are hashed together, the left one first. */
  lemma {:induction false} RootOfHalves(H: Hash, a: seq<Bytes>, b: seq<Bytes>, n: nat)
    requires |a| == |b| == Pow2(n)
    ensures Root(H, a + b) == H(Root(H, a) + Root(H, b))
    decreases n
  {
    if n == 0 {
      assert NextLevel(H, a + b) == [H(a[0] + b[0])];
    } else {
      var p := Pow2(n - 1);
      assert |a| == 2 * p;
      forall k | 0 <= k < 2 * p ensures NextLevel(H, a + b)[k] == (NextLevel(H, a) + NextLevel(H, b))[k] {
        if k >= p {
          assert (a + b)[2 * k] == b[2 * (k - p)] && (a + b)[2 * k + 1] == b[2 * (k - p) + 1];
        }
      }
      assert NextLevel(H, a + b) == NextLevel(H, a) + NextLevel(H, b);
      RootOfHalves(H, NextLevel(H, a), NextLevel(H, b), n - 1);
    }
  }

  /** The smallest tree with an odd level: its last hash is paired with itself. */
  lemma RootOfThree(H: Hash, a: Bytes, b: Bytes, c: Bytes)
    ensures Root(H, [a, b, c]) == H(H(a + b) + H(c + c))
  {
    var two := [H(a + b), H(c + c)];
    assert NextLevel(H, [a, b, c]) == two;
    assert NextLevel(H, two) == [H(H(a + b) + H(c + c))];
    assert Root(H, two) == H(H(a + b) + H(c + c));
  }

  // ---------- The verifier ----------

  /** Go's division by two, which truncates towards zero. */
  function Half(i: int): (h: int)
    ensures i >= 0 ==> 0 <= i - 2 * h <= 1
    ensures i < 0 ==> -1 <= i - 2 * h <= 0
  {
    if i >= 0 then i / 2 else -((-i) / 2)
  }

  function Combine(current: Bytes, sibling: Bytes, i: int): Bytes {
    if i % 2 == 0 then current + sibling else sibling + current
  }

  /** The hash the verifier ends with; it skips empty siblings without moving up. */
  function Climb(H: Hash, current: Bytes, proof: seq<Bytes>, i: int): Bytes
    decreases |proof|
  {
    if proof == [] then current
    else if proof[0] == [] then Climb(H, current, proof[1..], i)
    else Climb(H, H(Combine(current, proof[0], i)), proof[1..], Half(i))
  }

  // ---------- What is hashed at each level ----------

  /** The input the tree builder hashes at level `d` on the way from leaf `i` to the root. */
  function TreeInput(H: Hash, hashes: seq<Bytes>, i: nat, d: nat): Bytes
    requires i < |hashes| && d < Depth(|hashes|)
    decreases d
  {
    if d == 0 then NodeInput(hashes, i / 2) else TreeInput(H, NextLevel(H, hashes), i / 2, d - 1)
  }

  /** The input the verifier hashes at level `d`. */
  function PathInput(H: Hash, leaf: Bytes, proof: seq<Bytes>, i: int, d: nat): Bytes
    requires d < |proof|
    decreases d
  {
    var input := Combine(leaf, proof[0], i);
    if d == 0 then input else PathInput(H, H(input), proof[1..], Half(i), d - 1)
  }

  /**
    The leaf among `n` whose path the verifier follows for an index: it only looks at whether the
    index is even and halves it, so indices outside the list wrap.
   */
  function Wrap(i: int, n: nat): (j: nat)
    requires n > 0
    ensures j < n
    decreases n
  {
    if n == 1 then 0 else
      var k := 2 * Wrap(Half(i), (n + 1) / 2);
      if i % 2 == 1 && k + 1 < n then k + 1 else k
  }

  ghost predicate Collision(H: Hash, x: Bytes, y: Bytes) {
    x != y && H(x) == H(y)
  }

  /** At level `d` the verifier and the tree builder hashed different inputs to the same hash. */
  ghost predicate CollidesAt(H: Hash, hashes: seq<Bytes>, i: int, leaf: Bytes, proof: seq<Bytes>, d: int) {
    && hashes != []
    && 0 <= d < |proof| == Depth(|hashes|)
    && Collision(H, PathInput(H, leaf, proof, i, d), TreeInput(H, hashes, Wrap(i, |hashes|), d))
  }

  /** On the way from entry `i`, two trees of the same shape have different inputs with the same hash. */
  ghost predicate TreesCollideAt(H: Hash, a: seq<Bytes>, b: seq<Bytes>, i: int, d: int) {
    && 0 <= i < |a| == |b|
    && 0 <= d < Depth(|a|)
    && Collision(H, TreeInput(H, a, i, d), TreeInput(H, b, i, d))
  }

  /** A collision of the double hash is a collision of the hash itself. */
  lemma DoubleHashCollision(sha: Hash, x: Bytes, y: Bytes)
    requires Collision(DoubleHash(sha), x, y)
    ensures Collision(sha, x, y) || Collision(sha, sha(x), sha(y))
  {
  }

  // ---------- Completeness ----------

  lemma {:induction false} ProofShape(H: Hash, hashes: seq<Bytes>, i: nat)
    requires i < |hashes|
    ensures |Proof(H, hashes, i)| == Depth(|hashes|)
    ensures Hash32(H) && All32(hashes) ==> All32(Proof(H, hashes, i))
    decreases |hashes|
  {
    if |hashes| > 1 {
      ProofShape(H, NextLevel(H, hashes), i / 2);
    }
  }

  lemma CombineIsNodeInput(hashes: seq<Bytes>, i: nat)
    requires i < |hashes|
    ensures Combine(hashes[i], Sibling(hashes, i), i) == NodeInput(hashes, i / 2)
  {
    assert i == 2 * (i / 2) + i % 2;
  }

  /** The proof built for a leaf is accepted against the root, odd levels included. */
  lemma {:induction false} Completeness(H: Hash, hashes: seq<Bytes>, i: nat)
    requires i < |hashes| && AllNonEmpty(hashes) && NeverEmpty(H)
    ensures Climb(H, hashes[i], Proof(H, hashes, i), i) == Root(H, hashes)
    decreases |hashes|
  {
    if |hashes| > 1 {
      CombineIsNodeInput(hashes, i);
      Completeness(H, NextLevel(H, hashes), i / 2);
    }
  }

  /** An index in range is itself. */
  lemma {:induction false} WrapInRange(i: nat, n: nat)
    requires i < n
    ensures Wrap(i, n) == i
    decreases n
  {
    if n > 1 {
      WrapInRange(i / 2, (n + 1) / 2);
    }
  }

  lemma WrapStep(i: int, n: nat)
    requires n > 1
    ensures Wrap(i, n) / 2 == Wrap(Half(i), (n + 1) / 2)
    ensures Wrap(i, n) == 2 * (Wrap(i, n) / 2) + if i % 2 == 1 && 2 * (Wrap(i, n) / 2) + 1 < n then 1 else 0
  {
  }

  /** Every index, negative or beyond the list, is accepted for the leaf it wraps to. */
  lemma {:induction false} EveryIndexAccepted(H: Hash, hashes: seq<Bytes>, i: int)
    requires hashes != [] && AllNonEmpty(hashes) && NeverEmpty(H)
    ensures Climb(H, hashes[Wrap(i, |hashes|)], Proof(H, hashes, Wrap(i, |hashes|)), i) == Root(H, hashes)
    decreases |hashes|
  {
    hide Wrap, Half, Combine, NodeInput, Sibling, Climb, Proof, Root, NeverEmpty, AllNonEmpty, NextLevel;
    if |hashes| > 1 {
      var j := Wrap(i, |hashes|);
      WrapStep(i, |hashes|);
      CombineWrapped(hashes, i);
      SiblingNotEmpty(hashes, j);
      ClimbStep(H, hashes, j, i);
      RootStep(H, hashes);
      NextNonEmpty(H, hashes);
      EveryIndexAccepted(H, NextLevel(H, hashes), Half(i));
    } else {
      OneLeaf(H, hashes, i);
    }
  }

  lemma OneLeaf(H: Hash, hashes: seq<Bytes>, i: int)
    requires |hashes| == 1
    ensures Wrap(i, 1) == 0 && Climb(H, hashes[0], Proof(H, hashes, 0), i) == Root(H, hashes)
  {
  }

  lemma NextNonEmpty(H: Hash, hashes: seq<Bytes>)
    requires NeverEmpty(H)
    ensures AllNonEmpty(NextLevel(H, hashes))
  {
  }

  lemma SiblingNotEmpty(hashes: seq<Bytes>, j: nat)
    requires j < |hashes| && AllNonEmpty(hashes)
    ensures Sibling(hashes, j) != []
  {
  }

  lemma ClimbStep(H: Hash, hashes: seq<Bytes>, j: nat, i: int)
    requires j < |hashes| && |hashes| > 1 && Sibling(hashes, j) != []
    ensures Climb(H, hashes[j], Proof(H, hashes, j), i)
         == Climb(H, H(Combine(hashes[j], Sibling(hashes, j), i)), Proof(H, NextLevel(H, hashes), j / 2), Half(i))
  {
  }

  lemma CombineWrapped(hashes: seq<Bytes>, i: int)
    requires |hashes| > 1
    ensures var j := Wrap(i, |hashes|);
      Combine(hashes[j], Sibling(hashes, j), i) == NodeInput(hashes, j / 2)
  {
    WrapStep(i, |hashes|);
  }

  /** Along an honest proof the verifier hashes exactly what the tree builder hashed. */
  lemma {:induction false} HonestPath(H: Hash, hashes: seq<Bytes>, i: nat, d: nat)
    requires i < |hashes| && d < Depth(|hashes|)
    ensures |Proof(H, hashes, i)| == Depth(|hashes|)
    ensures PathInput(H, hashes[i], Proof(H, hashes, i), i, d) == TreeInput(H, hashes, i, d)
    decreases |hashes|
  {
    ProofShape(H, hashes, i);
    CombineIsNodeInput(hashes, i);
    if d > 0 {
      HonestPath(H, NextLevel(H, hashes), i / 2, d - 1);
    }
  }

  // ---------- Binding ----------

  lemma CombineInjective(leaf: Bytes, sibling: Bytes, hashes: seq<Bytes>, i: int)
    requires |hashes| > 1 && All32(hashes) && (|leaf| == 32 || |sibling| == 32)
    requires Combine(leaf, sibling, i) == NodeInput(hashes, Wrap(i, |hashes|) / 2)
    ensures leaf == hashes[Wrap(i, |hashes|)]
  {
    WrapStep(i, |hashes|);
    var k := Wrap(i, |hashes|) / 2;
    hide Wrap;
    var right := if 2 * k + 1 < |hashes| then hashes[2 * k + 1] else hashes[2 * k];
    assert |leaf| == 32 && |sibling| == 32;
    if i % 2 == 0 {
      assert leaf == (leaf + sibling)[..|leaf|] == (hashes[2 * k] + right)[..32] == hashes[2 * k];
    } else {
      assert leaf == (sibling + leaf)[32..] == (hashes[2 * k] + right)[32..] == right;
    }
  }

  lemma RootStep(H: Hash, hashes: seq<Bytes>)
    requires |hashes| > 1
    ensures Root(H, hashes) == Root(H, NextLevel(H, hashes))
  {
  }

  lemma CollidesHere(H: Hash, hashes: seq<Bytes>, i: int, leaf: Bytes, proof: seq<Bytes>)
    requires |hashes| > 1 && |proof| == Depth(|hashes|)
    requires Collision(H, Combine(leaf, proof[0], i), NodeInput(hashes, Wrap(i, |hashes|) / 2))
    ensures CollidesAt(H, hashes, i, leaf, proof, 0)
  {
  }

  lemma DepthStep(n: nat)
    requires n > 1
    ensures Depth(n) == 1 + Depth((n + 1) / 2)
  {
  }

  lemma InputsAbove(H: Hash, hashes: seq<Bytes>, j: nat, leaf: Bytes, proof: seq<Bytes>, i: int, d: nat)
    requires j < |hashes| && |hashes| > 1 && d + 1 < |proof| && d < Depth((|hashes| + 1) / 2)
    ensures PathInput(H, leaf, proof, i, d + 1) == PathInput(H, H(Combine(leaf, proof[0], i)), proof[1..], Half(i), d)
    ensures TreeInput(H, hashes, j, d + 1) == TreeInput(H, NextLevel(H, hashes), j / 2, d)
  {
  }

  lemma CollidesAbove(H: Hash, hashes: seq<Bytes>, i: int, leaf: Bytes, proof: seq<Bytes>, d: int)
    requires |hashes| > 1 && |proof| == Depth(|hashes|)
    requires CollidesAt(H, NextLevel(H, hashes), Half(i), H(Combine(leaf, proof[0], i)), proof[1..], d)
    ensures CollidesAt(H, hashes, i, leaf, proof, d + 1)
  {
    hide PathInput, TreeInput, Wrap, Half, Combine, Collision, Depth, NodeInput;
    WrapStep(i, |hashes|);
    DepthStep(|hashes|);
    InputsAbove(H, hashes, Wrap(i, |hashes|), leaf, proof, i, d);
  }

  /**
    A proof with one sibling per level that verifies at any index is for the leaf that the index
    wraps to, or at some level the verifier and the tree builder hashed different inputs to the same
    hash.  The leaf or its first sibling must be of the size of a hash.
   */
  lemma {:induction false} Binding(H: Hash, hashes: seq<Bytes>, i: int, leaf: Bytes, proof: seq<Bytes>)
    requires hashes != [] && Hash32(H) && All32(hashes)
    requires |proof| == Depth(|hashes|) && AllNonEmpty(proof)
    requires proof != [] ==> |leaf| == 32 || |proof[0]| == 32
    requires Climb(H, leaf, proof, i) == Root(H, hashes)
    ensures leaf == hashes[Wrap(i, |hashes|)] || exists d :: CollidesAt(H, hashes, i, leaf, proof, d)
    decreases |hashes|
  {
    if |hashes| > 1 {
      WrapStep(i, |hashes|);
      hide PathInput, TreeInput, CollidesAt, Root, NodeInput, Combine, Wrap;
      var next := NextLevel(H, hashes);
      var x, y := Combine(leaf, proof[0], i), NodeInput(hashes, Wrap(i, |hashes|) / 2);
      RootStep(H, hashes);
      Binding(H, next, Half(i), H(x), proof[1..]);
      if H(x) != next[Wrap(i, |hashes|) / 2] {
        var d :| CollidesAt(H, next, Half(i), H(x), proof[1..], d);
        CollidesAbove(H, hashes, i, leaf, proof, d);
      } else if x != y {
        CollidesHere(H, hashes, i, leaf, proof);
      } else {
        CombineInjective(leaf, proof[0], hashes, i);
      }
    } else {
      assert Wrap(i, |hashes|) == 0;
    }
  }

  /** The sizes are needed: the same 64 bytes split elsewhere are accepted for a leaf that is not in the list. */
  lemma OtherSplitAccepted(H: Hash, hashes: seq<Bytes>, i: nat)
    requires i < |hashes| && i % 2 == 0 && |hashes| > 1 && All32(hashes) && Hash32(H)
    ensures var input := NodeInput(hashes, i / 2);
      var leaf, proof := input[..31], [input[31..]] + Proof(H, hashes, i)[1..];
      leaf !in hashes && |proof| == Depth(|hashes|) && AllNonEmpty(proof) && Climb(H, leaf, proof, i) == Root(H, hashes)
  {
    var input := NodeInput(hashes, i / 2);
    ProofShape(H, hashes, i);
    InnerNodeAccepted(H, hashes, i);
    assert input[..31] + input[31..] == input;
  }

  // ---------- Proofs of other lengths ----------

  /** The verifier does not check the length: an inner node is accepted with the rest of a proof below it. */
  lemma InnerNodeAccepted(H: Hash, hashes: seq<Bytes>, i: nat)
    requires i < |hashes| && |hashes| > 1 && NeverEmpty(H)
    ensures Climb(H, NextLevel(H, hashes)[i / 2], Proof(H, hashes, i)[1..], i / 2) == Root(H, hashes)
  {
    Completeness(H, NextLevel(H, hashes), i / 2);
  }

  /** The hashes `n` levels above the leaves. */
  function Level(H: Hash, hashes: seq<Bytes>, n: nat): seq<Bytes> {
    if n == 0 then hashes else NextLevel(H, Level(H, hashes, n - 1))
  }

  lemma {:induction false} LevelFacts(H: Hash, hashes: seq<Bytes>, n: nat)
    requires hashes != [] && n <= Depth(|hashes|)
    ensures Level(H, hashes, n) != [] && Depth(|Level(H, hashes, n)|) == Depth(|hashes|) - n
    ensures Root(H, Level(H, hashes, n)) == Root(H, hashes)
    ensures Hash32(H) && All32(hashes) ==> All32(Level(H, hashes, n))
  {
    if n > 0 {
      LevelFacts(H, hashes, n - 1);
    }
  }

  /** A shorter proof binds its leaf to the inner node that many levels below the root. */
  lemma ShortProofBindsInnerNode(H: Hash, hashes: seq<Bytes>, i: int, leaf: Bytes, proof: seq<Bytes>)
    requires hashes != [] && Hash32(H) && All32(hashes)
    requires |proof| <= Depth(|hashes|) && AllNonEmpty(proof)
    requires proof != [] ==> |leaf| == 32 || |proof[0]| == 32
    requires Climb(H, leaf, proof, i) == Root(H, hashes)
    ensures var level := Level(H, hashes, Depth(|hashes|) - |proof|);
      level != [] && (leaf == level[Wrap(i, |level|)] || exists d :: CollidesAt(H, level, i, leaf, proof, d))
  {
    hide Climb, CollidesAt, Root, Depth, Level, PathInput, TreeInput, Wrap;
    var level := Level(H, hashes, Depth(|hashes|) - |proof|);
    LevelFacts(H, hashes, Depth(|hashes|) - |proof|);
    Binding(H, level, i, leaf, proof);
  }

  /** `n` times halved. */
  function HalfTimes(i: int, n: nat): int
    decreases n
  {
    if n == 0 then i else HalfTimes(Half(i), n - 1)
  }

  lemma {:induction false} ClimbInTwo(H: Hash, leaf: Bytes, proof: seq<Bytes>, i: int, n: nat)
    requires AllNonEmpty(proof) && n <= |proof|
    ensures Climb(H, leaf, proof, i) == Climb(H, Climb(H, leaf, proof[..n], i), proof[n..], HalfTimes(i, n))
    decreases |proof|
  {
    if n == 0 {
      assert proof[..0] == [] && proof[0..] == proof;
    } else {
      ClimbInTwo(H, H(Combine(leaf, proof[0], i)), proof[1..], Half(i), n - 1);
      assert proof[..n][1..] == proof[1..][..n - 1] && proof[1..][n - 1..] == proof[n..];
    }
  }

  /** A longer proof binds what its first siblings lead up to, a hash itself, to the leaf over it. */
  lemma LongProofBindsPreimage(H: Hash, hashes: seq<Bytes>, i: int, leaf: Bytes, proof: seq<Bytes>)
    requires hashes != [] && Hash32(H) && All32(hashes) && |proof| > Depth(|hashes|) && AllNonEmpty(proof)
    requires Climb(H, leaf, proof, i) == Root(H, hashes)
    ensures var n := |proof| - Depth(|hashes|);
      var below, index := Climb(H, leaf, proof[..n], i), HalfTimes(i, n);
      below == hashes[Wrap(index, |hashes|)] || exists d :: CollidesAt(H, hashes, index, below, proof[n..], d)
  {
    hide Climb, CollidesAt, Root, Depth, HalfTimes, PathInput, TreeInput, Wrap;
    var n := |proof| - Depth(|hashes|);
    ClimbInTwo(H, leaf, proof, i, n);
    ClimbIsHash(H, leaf, proof[..n], i);
    Binding(H, hashes, HalfTimes(i, n), Climb(H, leaf, proof[..n], i), proof[n..]);
  }

  lemma {:induction false} ClimbIsHash(H: Hash, leaf: Bytes, proof: seq<Bytes>, i: int)
    requires Hash32(H) && AllNonEmpty(proof) && proof != []
    ensures |Climb(H, leaf, proof, i)| == 32
    decreases |proof|
  {
    if |proof| > 1 {
      ClimbIsHash(H, H(Combine(leaf, proof[0], i)), proof[1..], Half(i));
    } else {
      assert proof[1..] == [];
    }
  }

  function NonEmpty(proof: seq<Bytes>): seq<Bytes> {
    if proof == [] then [] else (if proof[0] == [] then [] else [proof[0]]) + NonEmpty(proof[1..])
  }

  /** Empty siblings are skipped, so any proof is as good as the one without them. */
  lemma {:induction false} EmptySiblingsSkipped(H: Hash, leaf: Bytes, proof: seq<Bytes>, i: int)
    ensures Climb(H, leaf, NonEmpty(proof), i) == Climb(H, leaf, proof, i)
    ensures AllNonEmpty(NonEmpty(proof))
    decreases |proof|
  {
    if proof != [] {
      if proof[0] == [] {
        assert NonEmpty(proof) == NonEmpty(proof[1..]);
        EmptySiblingsSkipped(H, leaf, proof[1..], i);
      } else {
        EmptySiblingsSkipped(H, H(Combine(leaf, proof[0], i)), proof[1..], Half(i));
        assert NonEmpty(proof)[1..] == NonEmpty(proof[1..]);
      }
    }
  }

  /** Two lists of the same length with the same root agree, or their trees exhibit a collision. */
  lemma RootBindsList(H: Hash, a: seq<Bytes>, b: seq<Bytes>)
    requires a != [] && |a| == |b| && Hash32(H) && All32(a) && All32(b)
    requires Root(H, a) == Root(H, b)
    ensures a == b || exists i, d :: TreesCollideAt(H, a, b, i, d)
  {
    if a != b {
      var i :| 0 <= i < |a| && a[i] != b[i];
      var proof := Proof(H, a, i);
      ProofShape(H, a, i);
      assert forall x :: |H(x)| == 32 ==> H(x) != [];
      Completeness(H, a, i);
      WrapInRange(i, |b|);
      Binding(H, b, i, a[i], proof);
      var d :| CollidesAt(H, b, i, a[i], proof, d);
      HonestPath(H, a, i, d);
      assert TreesCollideAt(H, a, b, i, d);
    }
  }

  /**
    The equal length is needed: repeating the last entry of an odd list of at least three never
    changes the root, so the root does not determine how many entries there are.
   */
  lemma RootForgetsLength(H: Hash, hashes: seq<Bytes>)
    requires |hashes| % 2 == 1 && |hashes| > 1
    ensures Root(H, hashes + [hashes[|hashes| - 1]]) == Root(H, hashes)
  {
    var longer := hashes + [hashes[|hashes| - 1]];
    var n := (|hashes| + 1) / 2;
    forall k | 0 <= k < n ensures NextLevel(H, longer)[k] == NextLevel(H, hashes)[k] {
      assert NodeInput(longer, k) == NodeInput(hashes, k);
    }
    assert NextLevel(H, longer) == NextLevel(H, hashes);
  }

  // ---------- The implementations ----------

  /** One pass of the level loops: pad an odd level, then hash pairs from the left. */
  method HashPairs(H: Hash, level: seq<Bytes>) returns (padded: seq<Bytes>, next: seq<Bytes>)
    requires |level| > 1
    ensures padded == if |level| % 2 == 1 then level + [level[|level| - 1]] else level
    ensures next == NextLevel(H, level)
  {
    padded := level;
    if |padded| % 2 == 1 {
      padded := padded + [padded[|padded| - 1]];
    }
    next := [];
    var i := 0;
    while i < |padded|
      invariant 0 <= i <= |padded| && i % 2 == 0
      invariant |next| == i / 2
      invariant forall k :: 0 <= k < i / 2 ==> next[k] == NextLevel(H, level)[k]
    {
      assert padded[i] + padded[i + 1] == NodeInput(level, i / 2);
      next := next + [H(padded[i] + padded[i + 1])];
      i := i + 2;
    }
  }

  method MerkleRoot(H: Hash, hashes: seq<Bytes>) returns (root: Bytes)
    ensures hashes == [] ==> root == []
    ensures hashes != [] ==> root == Root(H, hashes)
  {
    if |hashes| == 0 {
      return [];
    }
    if |hashes| == 1 {
      return hashes[0];
    }
    var tree := hashes;
    while |tree| > 1
      invariant tree != [] && Root(H, tree) == Root(H, hashes)
      decreases |tree|
    {
      var _, newTree := HashPairs(H, tree);
      tree := newTree;
    }
    return tree[0];
  }

  method HashTreeProof(H: Hash, hashes: seq<Bytes>, index: int) returns (result: Result<seq<Bytes>>)
    ensures result.IndexOutOfRange? <==> index < 0 || index >= |hashes|
    ensures result.Ok? ==> result.value == Proof(H, hashes, index)
  {
    if index < 0 || index >= |hashes| {
      return IndexOutOfRange;
    }
    hide Root, Proof, NodeInput, Sibling;
    var proof: seq<Bytes> := [];
    var level, i := hashes, index;
    while |level| > 1
      invariant 0 <= i < |level|
      invariant proof + Proof(H, level, i) == Proof(H, hashes, index)
      decreases |level|
    {
      var padded, newLevel := HashPairs(H, level);
      var siblingIndex := if i % 2 == 0 then i + 1 else i - 1; // index ^ 1
      var proofLevel := [];
      if siblingIndex < |padded| {
        proofLevel := padded[siblingIndex];
      }
      PaddedSibling(level, padded, i, siblingIndex);
      ProofStep(H, proof, level, i);
      proof := proof + [proofLevel];
      level := newLevel;
      i := i / 2;
    }
    LeafProof(H, level, i);
    assert proof + [] == proof;
    return Ok(proof);
  }

  lemma PaddedSibling(level: seq<Bytes>, padded: seq<Bytes>, i: nat, siblingIndex: int)
    requires i < |level| && |level| > 1
    requires padded == if |level| % 2 == 1 then level + [level[|level| - 1]] else level
    requires siblingIndex == if i % 2 == 0 then i + 1 else i - 1
    ensures siblingIndex < |padded| && padded[siblingIndex] == Sibling(level, i)
  {
  }

  lemma LeafProof(H: Hash, level: seq<Bytes>, i: nat)
    requires |level| == 1 && i == 0
    ensures Proof(H, level, i) == []
  {
  }

  lemma ProofStep(H: Hash, soFar: seq<Bytes>, level: seq<Bytes>, i: nat)
    requires i < |level| && |level| > 1
    ensures soFar + Proof(H, level, i) == (soFar + [Sibling(level, i)]) + Proof(H, NextLevel(H, level), i / 2)
  {
  }

  method CompareHashes(a: Bytes, b: Bytes) returns (equal: bool)
    ensures equal <==> a == b
  {
    if |a| != |b| {
      return false;
    }
    var result: bv8 := 0;
    for i := 0 to |a|
      invariant result == 0 <==> a[..i] == b[..i]
    {
      OrOfXor(result, a[i], b[i]);
      assert a[..i + 1] == a[..i] + [a[i]] && b[..i + 1] == b[..i] + [b[i]];
      result := result | (a[i] ^ b[i]);
    }
    assert a[..|a|] == a && b[..|b|] == b;
    return result == 0;
  }

  lemma OrOfXor(r: bv8, x: bv8, y: bv8)
    ensures (r | (x ^ y)) == 0 <==> r == 0 && x == y
  {
  }

  method VerifyMerkleProof(H: Hash, leafHash: Bytes, proof: seq<Bytes>, root: Bytes, index: int) returns (ok: bool)
    ensures ok <==> Climb(H, leafHash, proof, index) == root
  {
    var current, currentIndex := leafHash, index;
    for k := 0 to |proof|
      invariant Climb(H, current, proof[k..], currentIndex) == Climb(H, leafHash, proof, index)
    {
      var sibling := proof[k];
      assert proof[k..][1..] == proof[k + 1..];
      if |sibling| == 0 {
        continue;
      }
      if currentIndex % 2 == 0 {
        current := H(current + sibling);
      } else {
        current := H(sibling + current);
      }
      currentIndex := Half(currentIndex);
    }
    ok := CompareHashes(current, root);
  }

  function ZeroRoot(): (root: Bytes)
    ensures |root| == 32 && forall i :: 0 <= i < 32 ==> root[i] == 0
  {
    seq(32, i => 0)
  }

  /** `hashes` lists the hash of every transaction, in order. */
  ghost predicate HashesOf<Tx>(hash: Tx -> Bytes, txs: seq<Tx>, hashes: seq<Bytes>) {
    |hashes| == |txs| && forall k :: 0 <= k < |txs| ==> hashes[k] == hash(txs[k])
  }

  function TxHashes<Tx>(hash: Tx -> Bytes, txs: seq<Tx>): (hashes: seq<Bytes>)
    ensures |hashes| == |txs| && forall k :: 0 <= k < |txs| ==> hashes[k] == hash(txs[k])
  {
    seq(|txs|, k requires 0 <= k < |txs| => hash(txs[k]))
  }

  function TransactionRoot<Tx>(sha: Hash, hash: Tx -> Bytes, txs: seq<Tx>): Bytes {
    if txs == [] then ZeroRoot() else Root(sha, TxHashes(hash, txs))
  }

  /** The root is that of the tree over the hash of every transaction, in order, and zeros for none. */
  lemma TransactionRootIs<Tx>(sha: Hash, hash: Tx -> Bytes, txs: seq<Tx>, hashes: seq<Bytes>)
    requires |hashes| == |txs| && forall k :: 0 <= k < |txs| ==> hashes[k] == hash(txs[k])
    ensures txs != [] ==> TransactionRoot(sha, hash, txs) == Root(sha, hashes)
    ensures txs == [] ==> TransactionRoot(sha, hash, txs) == seq(32, _ => 0)
  {
    assert hashes == TxHashes(hash, txs);
  }

  method ComputeMerkleRoot<Tx>(sha: Hash, hash: Tx -> Bytes, txs: seq<Tx>) returns (root: Bytes)
    ensures root == TransactionRoot(sha, hash, txs)
    ensures forall hashes :: HashesOf(hash, txs, hashes) && txs != [] ==> root == Root(sha, hashes)
    ensures txs == [] ==> |root| == 32 && forall i :: 0 <= i < 32 ==> root[i] == 0
  {
    if |txs| == 0 {
      return ZeroRoot();
    }
    var hashes: seq<Bytes> := [];
    for i := 0 to |txs|
      invariant hashes == TxHashes(hash, txs[..i])
    {
      hashes := hashes + [hash(txs[i])];
    }
    assert txs[..|txs|] == txs;
    while |hashes| > 1
      invariant hashes != [] && Root(sha, hashes) == Root(sha, TxHashes(hash, txs))
      decreases |hashes|
    {
      var _, newHashes := HashPairs(sha, hashes);
      hashes := newHashes;
    }
    forall hs | HashesOf(hash, txs, hs) ensures hs == TxHashes(hash, txs) {
    }
    return hashes[0];
  }

  /** Equal roots of equally many transactions mean equal hashes, one by one, or the trees over them exhibit a collision. */
  lemma TransactionRootBinds<Tx>(sha: Hash, hash: Tx -> Bytes, a: seq<Tx>, b: seq<Tx>, ha: seq<Bytes>, hb: seq<Bytes>)
    requires |a| == |b| && Hash32(sha) && forall tx :: |hash(tx)| == 32
    requires |ha| == |a| && forall k :: 0 <= k < |a| ==> ha[k] == hash(a[k])
    requires |hb| == |b| && forall k :: 0 <= k < |b| ==> hb[k] == hash(b[k])
    requires TransactionRoot(sha, hash, a) == TransactionRoot(sha, hash, b)
    ensures (forall k :: 0 <= k < |a| ==> hash(a[k]) == hash(b[k])) || exists i, d :: TreesCollideAt(sha, ha, hb, i, d)
  {
    hide Root, TreesCollideAt;
    TransactionRootIs(sha, hash, a, ha);
    TransactionRootIs(sha, hash, b, hb);
    if a != [] {
      RootBindsList(sha, ha, hb);
      if ha == hb {
        assert forall k :: 0 <= k < |a| ==> hash(a[k]) == ha[k] == hb[k] == hash(b[k]);
      }
    }
  }
}
