/**
  The block tree and its two fork searches (code/go/pkg/blockchain/chain.go and fork.go).

  Blocks are stored under the hash of their header.  `hash` is a parameter; nothing is assumed about
  it except that no header has the hash genesis names as its parent, because a block whose hash is
  already taken is refused.
 */
module BlockTree {
  import Emission
  import Merkle

  type Bytes = Merkle.Bytes

  datatype Option<T> = None | Some(value: T)

  datatype Transaction = Transaction(version: nat, from: Bytes, to: Bytes, amount: nat, signature: Bytes, payload: Bytes)

  datatype Header = Header(
    version: nat, height: nat, prevBlockHash: Bytes, merkleRoot: Bytes, timestamp: nat,
    validatorID: Bytes, stateRoot: Bytes, signature: Bytes)

  datatype Block = Block(header: Header, transactions: seq<Transaction>)

  const UINT64: nat := Emission.UINT64
  const INT64: nat := 0x8000_0000_0000_0000
  const PROTOCOL_VERSION: nat := 0x0100

  type Blocks = map<Bytes, Block>

  /** The stored blocks together with what they are keyed by and grown from. */
  datatype Tree = Tree(hash: Header -> Bytes, blocks: Blocks, genesis: Block)

  // ---------- The tree ----------

  ghost predicate Stored(t: Tree, b: Block) {
    var h := t.hash(b.header);
    h in t.blocks && t.blocks[h] == b
  }

  ghost predicate HasParent(blocks: Blocks, b: Block) {
    b.header.prevBlockHash in blocks
  }

  /** A stored parent one height lower with a strictly smaller timestamp. */
  ghost predicate ExtendsParent(blocks: Blocks, b: Block) {
    && HasParent(blocks, b)
    && var parent := blocks[b.header.prevBlockHash];
       && b.header.height == parent.header.height + 1
       && parent.header.timestamp < b.header.timestamp < INT64
  }

  /** No header has this hash; true of the empty string, as hashes have 32 bytes. */
  ghost predicate NoHash(hash: Header -> Bytes, h: Bytes) {
    forall x :: hash(x) != h
  }

  ghost predicate WellFormed(t: Tree) {
    && NoHash(t.hash, t.genesis.header.prevBlockHash)
    && (forall h :: h in t.blocks ==> t.hash(t.blocks[h].header) == h)
    && Stored(t, t.genesis)
    && t.genesis.header.height == 0
    && (forall h :: h in t.blocks && t.blocks[h] != t.genesis ==> ExtendsParent(t.blocks, t.blocks[h]))
  }

  /** The block `n` parents back from `b`, if the walk gets that far. */
  function Ancestor(blocks: Blocks, b: Block, n: nat): Option<Block> {
    if n == 0 then Some(b) else
      var child := Ancestor(blocks, b, n - 1);
      if child.Some? && child.value.header.prevBlockHash in blocks then
        Some(blocks[child.value.header.prevBlockHash])
      else None
  }

  /** A block the walks may start from: stored, or new and one above its stored parent. */
  ghost predicate Attached(t: Tree, b: Block) {
    || Stored(t, b)
    || (t.hash(b.header) !in t.blocks && HasParent(t.blocks, b)
        && b.header.height == t.blocks[b.header.prevBlockHash].header.height + 1)
  }

  /** `c` is on the path from `tip` back to genesis. */
  ghost predicate OnChain(blocks: Blocks, c: Block, tip: Block) {
    && c.header.height <= tip.header.height
    && Ancestor(blocks, tip, tip.header.height - c.header.height) == Some(c)
  }

  /** The highest block common to the paths from `a` and from `b`. */
  ghost predicate IsForkPoint(blocks: Blocks, a: Block, b: Block, fork: Block) {
    && OnChain(blocks, fork, a) && OnChain(blocks, fork, b)
    && forall c :: OnChain(blocks, c, a) && OnChain(blocks, c, b) ==> c.header.height <= fork.header.height
  }

  // ---------- Walking back ----------

  lemma ParentFacts(t: Tree, b: Block)
    requires WellFormed(t) && Attached(t, b)
    ensures HasParent(t.blocks, b) <==> b.header.height > 0
    ensures HasParent(t.blocks, b) ==>
              var parent := t.blocks[b.header.prevBlockHash];
              Stored(t, parent) && b.header.height == parent.header.height + 1
    ensures !HasParent(t.blocks, b) <==> b == t.genesis
  {
    assert t.genesis.header.prevBlockHash !in t.blocks;
  }

  /** Walking back from a block visits one height at a time and ends at genesis after `height` steps. */
  lemma {:induction false} WalkBack(t: Tree, b: Block, n: nat)
    requires WellFormed(t) && Attached(t, b)
    ensures Ancestor(t.blocks, b, n).Some? <==> n <= b.header.height
    ensures n <= b.header.height ==>
              var a := Ancestor(t.blocks, b, n).value;
              a.header.height == b.header.height - n && Attached(t, a) && (n > 0 ==> Stored(t, a))
    ensures n == b.header.height ==> Ancestor(t.blocks, b, n) == Some(t.genesis)
  {
    if n > 0 {
      WalkBack(t, b, n - 1);
      if n - 1 <= b.header.height {
        ParentFacts(t, Ancestor(t.blocks, b, n - 1).value);
      }
    } else {
      ParentFacts(t, b);
    }
  }

  lemma {:induction false} AncestorAdds(blocks: Blocks, b: Block, m: nat, n: nat)
    requires Ancestor(blocks, b, m).Some?
    ensures Ancestor(blocks, Ancestor(blocks, b, m).value, n) == Ancestor(blocks, b, m + n)
  {
    if n > 0 {
      AncestorAdds(blocks, b, m, n - 1);
    }
  }

  lemma GenesisOnEveryChain(t: Tree, b: Block)
    requires WellFormed(t) && Attached(t, b)
    ensures OnChain(t.blocks, t.genesis, b)
  {
    WalkBack(t, b, b.header.height);
  }

  /** Whatever lies below a block of a chain, at any height, is the chain's block of that height. */
  lemma OnChainTransitive(t: Tree, c: Block, mid: Block, tip: Block)
    requires WellFormed(t) && OnChain(t.blocks, mid, tip) && OnChain(t.blocks, c, mid)
    ensures OnChain(t.blocks, c, tip)
  {
    hide WellFormed;
    AncestorAdds(t.blocks, tip, tip.header.height - mid.header.height, mid.header.height - c.header.height);
  }

  lemma ForkPointUnique(blocks: Blocks, a: Block, b: Block, f: Block, g: Block)
    requires IsForkPoint(blocks, a, b, f) && IsForkPoint(blocks, a, b, g)
    ensures f == g
  {
    assert f.header.height == g.header.height;
  }

  /** Heights never exceed timestamps, so the 64-bit `parent height + 1` of the validator never wraps. */
  lemma {:induction false} HeightBelowTimestamp(t: Tree, b: Block)
    requires WellFormed(t) && Stored(t, b)
    ensures b.header.height <= b.header.timestamp
    ensures b.header.height < INT64
    decreases b.header.height
  {
    ParentFacts(t, b);
    if b != t.genesis {
      HeightBelowTimestamp(t, t.blocks[b.header.prevBlockHash]);
    }
  }

  lemma GenesisHasNoParent(t: Tree, block: Block)
    requires WellFormed(t)
    ensures t.genesis.header.prevBlockHash != t.hash(block.header)
  {
  }

  /** Storing one more block leaves every walk from a stored block as it was. */
  lemma {:induction false} GrowKeepsWalks(t: Tree, block: Block, b: Block, n: nat)
    requires WellFormed(t) && Stored(t, b)
    requires t.hash(block.header) !in t.blocks
    ensures Ancestor(t.blocks[t.hash(block.header) := block], b, n) == Ancestor(t.blocks, b, n)
  {
    hide WellFormed, Ancestor, Stored;
    var key := t.hash(block.header);
    AncestorStep(t.blocks, b, n);
    AncestorStep(t.blocks[key := block], b, n);
    if n > 0 {
      GrowKeepsWalks(t, block, b, n - 1);
      StoredAncestor(t, b, n - 1);
      var child := Ancestor(t.blocks, b, n - 1);
      if child.Some? {
        GrowKeepsParent(t, block, child.value);
      }
    }
  }

  lemma AncestorStep(blocks: Blocks, b: Block, n: nat)
    ensures n == 0 ==> Ancestor(blocks, b, n) == Some(b)
    ensures n > 0 ==>
              var child := Ancestor(blocks, b, n - 1);
              Ancestor(blocks, b, n) == if child.Some? then Parent(blocks, child.value) else None
  {
  }

  lemma StoredAncestor(t: Tree, b: Block, n: nat)
    requires WellFormed(t) && Stored(t, b)
    ensures Ancestor(t.blocks, b, n).Some? ==> Stored(t, Ancestor(t.blocks, b, n).value)
  {
    hide WellFormed, Stored;
    AttachedIfStored(t, b);
    WalkBack(t, b, n);
    AncestorStep(t.blocks, b, n);
  }

  lemma GrowKeepsParent(t: Tree, block: Block, b: Block)
    requires WellFormed(t) && Stored(t, b) && t.hash(block.header) !in t.blocks
    ensures Parent(t.blocks[t.hash(block.header) := block], b) == Parent(t.blocks, b)
  {
    GenesisHasNoParent(t, block);
    ParentFacts(t, b);
  }

  /** The block `n` steps back from `tip` and the one a loop moves to from there. */
  lemma StepBack(t: Tree, tip: Block, n: nat, current: Block)
    requires WellFormed(t) && Attached(t, tip) && Ancestor(t.blocks, tip, n) == Some(current)
    ensures n <= tip.header.height && current.header.height == tip.header.height - n
    ensures Attached(t, current) && (n > 0 ==> Stored(t, current))
    ensures OnChain(t.blocks, current, tip)
    ensures Ancestor(t.blocks, tip, n + 1) == Parent(t.blocks, current)
    ensures Parent(t.blocks, current).Some? <==> n < tip.header.height
    ensures Parent(t.blocks, current).Some? ==> Parent(t.blocks, current).value.header.height == tip.header.height - (n + 1)
  {
    WalkBack(t, tip, n);
    WalkBack(t, tip, n + 1);
  }

  lemma Here(blocks: Blocks, b: Block)
    ensures Ancestor(blocks, b, 0) == Some(b)
  {
  }

  lemma ChainIsBelow(blocks: Blocks, tip: Block)
    ensures forall c :: OnChain(blocks, c, tip) ==> c.header.height <= tip.header.height
  {
  }

  lemma AttachedIfStored(t: Tree, b: Block)
    requires Stored(t, b)
    ensures Attached(t, b)
  {
  }

  lemma OnChainFacts(t: Tree, c: Block, tip: Block)
    requires WellFormed(t) && Attached(t, tip) && OnChain(t.blocks, c, tip)
    ensures c.header.height <= tip.header.height && Attached(t, c)
    ensures Ancestor(t.blocks, tip, tip.header.height - c.header.height) == Some(c)
    ensures c != tip ==> Stored(t, c)
    ensures Stored(t, tip) ==> Stored(t, c)
  {
    WalkBack(t, tip, tip.header.height - c.header.height);
  }

  lemma KeyIsHash(t: Tree, key: Bytes)
    requires WellFormed(t) && key in t.blocks
    ensures t.hash(t.blocks[key].header) == key && Stored(t, t.blocks[key])
  {
  }

  lemma SameHashSameBlock(t: Tree, a: Block, b: Block)
    requires Stored(t, a) && Stored(t, b)
    ensures t.hash(a.header) == t.hash(b.header) <==> a == b
  {
  }

  /** `heightMap[h]` lists every stored block of height `h` exactly once. */
  ghost predicate Indexed(t: Tree, heightMap: map<nat, seq<Block>>) {
    && (forall h, b :: h in heightMap && b in heightMap[h] ==> Stored(t, b) && b.header.height == h)
    && (forall k :: k in t.blocks ==>
          t.blocks[k].header.height in heightMap && t.blocks[k] in heightMap[t.blocks[k].header.height])
    && (forall h, i, j :: h in heightMap && 0 <= i < j < |heightMap[h]| ==> heightMap[h][i] != heightMap[h][j])
  }

  // ---------- Growing ----------

  lemma GrowKeepsWellFormed(t: Tree, block: Block)
    requires WellFormed(t) && t.hash(block.header) !in t.blocks && ExtendsParent(t.blocks, block)
    ensures var t' := t.(blocks := t.blocks[t.hash(block.header) := block]);
      WellFormed(t') && Stored(t', block) && forall b :: Stored(t, b) ==> Stored(t', b)
  {
  }

  lemma GrowKeepsIndex(t: Tree, heightMap: map<nat, seq<Block>>, block: Block)
    requires Indexed(t, heightMap) && t.hash(block.header) !in t.blocks
    ensures var height := block.header.height;
      var siblings := if height in heightMap then heightMap[height] else [];
      Indexed(t.(blocks := t.blocks[t.hash(block.header) := block]), heightMap[height := siblings + [block]])
  {
  }

  // ---------- The walks ----------

  function Parent(blocks: Blocks, b: Block): Option<Block> {
    if b.header.prevBlockHash in blocks then Some(blocks[b.header.prevBlockHash]) else None
  }

  /** How many more steps a walk from `current` can take. */
  function Remaining(current: Option<Block>): nat {
    if current.Some? then current.value.header.height + 1 else 0
  }

  method IsInCurrentChain(t: Tree, chainHead: Block, block: Block) returns (found: bool)
    requires WellFormed(t) && Stored(t, chainHead) && Stored(t, block)
    ensures found <==> OnChain(t.blocks, block, chainHead)
  {
    hide WellFormed, Ancestor;
    Here(t.blocks, chainHead);
    var current := Some(chainHead);
    ghost var n := 0;
    while current.Some?
      invariant current == Ancestor(t.blocks, chainHead, n)
      invariant OnChain(t.blocks, block, chainHead) ==> n <= chainHead.header.height - block.header.height
      decreases Remaining(current)
    {
      StepBack(t, chainHead, n, current.value);
      OnChainCase(t, block, chainHead);
      SameHashSameBlock(t, current.value, block);
      if t.hash(current.value.header) == t.hash(block.header) {
        return true;
      }
      current := Parent(t.blocks, current.value);
      n := n + 1;
    }
    WalkBack(t, chainHead, n);
    return false;
  }

  /** Where the search in the tree starts: at the block itself if it is stored, else at its parent, if there is one. */
  ghost function SearchStart(t: Tree, block: Block): Option<Block> {
    if Stored(t, block) then Some(block) else Parent(t.blocks, block)
  }

  /**
    chain.go: walk back from `block`, stored or with a hash that is not, until a block of the current
    chain is met.
   */
  method FindForkPoint(t: Tree, chainHead: Block, block: Block) returns (fork: Option<Block>)
    requires WellFormed(t) && Stored(t, chainHead)
    requires Stored(t, block) || t.hash(block.header) !in t.blocks
    ensures fork.Some? <==> SearchStart(t, block).Some?
    ensures fork.Some? ==> IsForkPoint(t.blocks, SearchStart(t, block).value, chainHead, fork.value)
  {
    hide WellFormed, Ancestor, Stored;
    ghost var start, atNewBlock := SearchStart(t, block), !Stored(t, block);
    StartFacts(t, block, chainHead);
    var current := Some(block);
    ghost var n := 0;
    while current.Some?
      invariant atNewBlock ==> current == Some(block) && t.hash(block.header) !in t.blocks
      invariant !atNewBlock && start.None? ==> current.None?
      invariant !atNewBlock && start.Some? ==>
                  && current == Ancestor(t.blocks, start.value, n)
                  && NoneCommonAbove(t.blocks, start.value, chainHead, start.value.header.height - n)
      invariant atNewBlock ==> n == 0 && start == Parent(t.blocks, block)
      decreases atNewBlock, Remaining(current)
    {
      if !atNewBlock {
        StepBack(t, start.value, n, current.value);
        KeyOfStored(t, current.value);
      }
      if t.hash(current.value.header) in t.blocks {
        var inChain := IsInCurrentChain(t, chainHead, current.value);
        if inChain {
          return current;
        }
        NoneCommonHere(t, start.value, chainHead, current.value);
      }
      current := Parent(t.blocks, current.value);
      if atNewBlock {
        atNewBlock := false;
      } else {
        n := n + 1;
      }
    }
    if start.Some? {
      WalkBack(t, start.value, n);
      NoneCommonIsWrong(t, start.value, chainHead, start.value.header.height - n);
    }
    return None;
  }

  ghost predicate NoneCommonAbove(blocks: Blocks, a: Block, b: Block, height: int) {
    forall c :: OnChain(blocks, c, a) && OnChain(blocks, c, b) ==> c.header.height <= height
  }

  lemma StartFacts(t: Tree, block: Block, chainHead: Block)
    requires WellFormed(t) && Stored(t, chainHead)
    ensures var start := SearchStart(t, block);
      start.Some? ==>
        && Stored(t, start.value) && Attached(t, start.value)
        && Ancestor(t.blocks, start.value, 0) == start
        && NoneCommonAbove(t.blocks, start.value, chainHead, start.value.header.height)
    ensures Stored(t, block) ==> SearchStart(t, block) == Some(block)
    ensures !Stored(t, block) ==> SearchStart(t, block) == Parent(t.blocks, block)
  {
  }

  lemma KeyOfStored(t: Tree, b: Block)
    requires Stored(t, b)
    ensures t.hash(b.header) in t.blocks
  {
  }

  lemma NoneCommonHere(t: Tree, a: Block, b: Block, c: Block)
    requires OnChain(t.blocks, c, a) && !OnChain(t.blocks, c, b)
    requires NoneCommonAbove(t.blocks, a, b, c.header.height)
    ensures NoneCommonAbove(t.blocks, a, b, c.header.height - 1)
  {
    SameHeightSameBlock(t, a, c);
  }

  lemma NoneCommonIsWrong(t: Tree, a: Block, b: Block, height: int)
    requires WellFormed(t) && Stored(t, a) && Stored(t, b) && NoneCommonAbove(t.blocks, a, b, height)
    ensures height >= 0
  {
    GenesisOnEveryChain(t, a);
    GenesisOnEveryChain(t, b);
  }

  /** For a new block one above its stored parent, its own fork point is the parent's. */
  lemma NewBlockForkPoint(t: Tree, block: Block, chainHead: Block, fork: Block)
    requires WellFormed(t) && Stored(t, chainHead) && Attached(t, block) && t.hash(block.header) !in t.blocks
    ensures IsForkPoint(t.blocks, block, chainHead, fork) <==>
            IsForkPoint(t.blocks, t.blocks[block.header.prevBlockHash], chainHead, fork)
  {
    var parent := t.blocks[block.header.prevBlockHash];
    NewBlockIsOnNoChain(t, block, chainHead);
    forall c | OnChain(t.blocks, c, chainHead) ensures OnChain(t.blocks, c, block) <==> OnChain(t.blocks, c, parent) {
      OnChainFacts(t, c, chainHead);
      SameAboveParent(t, block, c);
    }
  }

  lemma SameAboveParent(t: Tree, block: Block, c: Block)
    requires Attached(t, block) && t.hash(block.header) !in t.blocks && c != block
    ensures HasParent(t.blocks, block)
    ensures OnChain(t.blocks, c, block) <==> OnChain(t.blocks, c, t.blocks[block.header.prevBlockHash])
  {
    hide WellFormed, Ancestor;
    var parent := t.blocks[block.header.prevBlockHash];
    OneBack(t.blocks, block);
    if c.header.height <= parent.header.height {
      AncestorAdds(t.blocks, block, 1, parent.header.height - c.header.height);
    }
  }

  lemma OneBack(blocks: Blocks, b: Block)
    requires HasParent(blocks, b)
    ensures Ancestor(blocks, b, 0) == Some(b) && Ancestor(blocks, b, 1) == Some(blocks[b.header.prevBlockHash])
  {
    assert Ancestor(blocks, b, 0) == Some(b);
  }

  lemma OnChainCase(t: Tree, block: Block, tip: Block)
    requires WellFormed(t) && Stored(t, tip)
    ensures OnChain(t.blocks, block, tip) ==>
              block.header.height <= tip.header.height
              && Ancestor(t.blocks, tip, tip.header.height - block.header.height) == Some(block)
  {
    hide WellFormed, Ancestor, Stored;
  }

  lemma NewBlockIsOnNoChain(t: Tree, c: Block, tip: Block)
    requires WellFormed(t) && Stored(t, tip) && t.hash(c.header) !in t.blocks
    ensures !OnChain(t.blocks, c, tip)
  {
    if OnChain(t.blocks, c, tip) {
      OnChainFacts(t, c, tip);
    }
  }

  lemma SameHeightSameBlock(t: Tree, tip: Block, b: Block)
    requires OnChain(t.blocks, b, tip)
    ensures forall c :: OnChain(t.blocks, c, tip) && c.header.height == b.header.height ==> c == b
  {
  }

  /** The number of blocks from `block` down to `startHeight`, as a 64-bit counter. */
  method CalculateChainDifficulty(t: Tree, block: Block, startHeight: nat) returns (difficulty: nat)
    requires WellFormed(t) && Stored(t, block)
    ensures difficulty == if startHeight <= block.header.height then block.header.height - startHeight + 1 else 0
  {
    hide WellFormed, Ancestor, OnChain, Attached, Stored;
    HeightBelowTimestamp(t, block);
    Here(t.blocks, block);
    AttachedIfStored(t, block);
    difficulty := 0;
    var current := Some(block);
    while current.Some? && current.value.header.height >= startHeight
      invariant current == Ancestor(t.blocks, block, difficulty)
      invariant current.Some? ==> current.value.header.height == block.header.height - difficulty
      invariant current.None? ==> difficulty == block.header.height + 1
      invariant difficulty <= if startHeight <= block.header.height then block.header.height - startHeight + 1 else 0
      decreases Remaining(current)
    {
      StepBack(t, block, difficulty, current.value);
      current := Parent(t.blocks, current.value);
      difficulty := (difficulty + 1) % UINT64;
    }
  }

  /** `path` goes down from `head` to just above `fork`. */
  ghost predicate Descends(blocks: Blocks, head: Block, fork: Block, path: seq<Block>) {
    && |path| == head.header.height - fork.header.height
    && forall k :: 0 <= k < |path| ==> Ancestor(blocks, head, k) == Some(path[k])
  }

  /** `path` goes up from just above `fork` to `tip`. */
  ghost predicate Ascends(blocks: Blocks, fork: Block, tip: Block, path: seq<Block>) {
    && |path| == tip.header.height - fork.header.height
    && forall k :: 0 <= k < |path| ==> Ancestor(blocks, tip, |path| - 1 - k) == Some(path[k])
  }

  /** Every block above the fork point of `head` and `tip`, on the way to `tip`, replays. */
  ghost predicate BranchReplays(blocks: Blocks, head: Block, tip: Block, replays: Block -> bool) {
    forall fork, n: nat ::
      (IsForkPoint(blocks, tip, head, fork) && n < tip.header.height - fork.header.height && Ancestor(blocks, tip, n).Some?)
      ==> replays(Ancestor(blocks, tip, n).value)
  }

  lemma BranchIsPath(blocks: Blocks, head: Block, tip: Block, fork: Block, path: seq<Block>, replays: Block -> bool)
    requires IsForkPoint(blocks, tip, head, fork) && Ascends(blocks, fork, tip, path)
    ensures BranchReplays(blocks, head, tip, replays) <==> forall k :: 0 <= k < |path| ==> replays(path[k])
  {
    hide Ancestor, IsForkPoint;
    if forall k :: 0 <= k < |path| ==> replays(path[k]) {
      forall f, n: nat | IsForkPoint(blocks, tip, head, f) && n < tip.header.height - f.header.height && Ancestor(blocks, tip, n).Some?
        ensures replays(Ancestor(blocks, tip, n).value)
      {
        ForkPointUnique(blocks, tip, head, f, fork);
        assert Ancestor(blocks, tip, |path| - 1 - (|path| - 1 - n)) == Some(path[|path| - 1 - n]);
      }
    }
    if BranchReplays(blocks, head, tip, replays) {
      forall k | 0 <= k < |path| ensures replays(path[k]) {
        assert Ancestor(blocks, tip, |path| - 1 - k) == Some(path[k]);
      }
    }
  }

  /** The descending path from the head to just above the fork point. */
  method GetBlocksAfter(t: Tree, chainHead: Block, fork: Block) returns (path: seq<Block>)
    requires WellFormed(t) && Stored(t, chainHead) && OnChain(t.blocks, fork, chainHead)
    ensures Descends(t.blocks, chainHead, fork, path)
  {
    hide WellFormed, Ancestor;
    OnChainFacts(t, fork, chainHead);
    Here(t.blocks, chainHead);
    path := [];
    var current := Some(chainHead);
    while current.Some? && t.hash(current.value.header) != t.hash(fork.header)
      invariant |path| <= chainHead.header.height - fork.header.height
      invariant current.Some? && current == Ancestor(t.blocks, chainHead, |path|)
      invariant forall k :: 0 <= k < |path| ==> Ancestor(t.blocks, chainHead, k) == Some(path[k])
      decreases chainHead.header.height - |path|
    {
      StepBack(t, chainHead, |path|, current.value);
      SameHashSameBlock(t, current.value, fork);
      path := path + [current.value];
      current := Parent(t.blocks, current.value);
    }
    StepBack(t, chainHead, |path|, current.value);
    SameHashSameBlock(t, current.value, fork);
  }

  /** The ascending path from the fork point's child to the new block. */
  method GetBlocksFromFork(t: Tree, fork: Block, newBlock: Block) returns (path: seq<Block>)
    requires WellFormed(t) && Stored(t, newBlock) && OnChain(t.blocks, fork, newBlock)
    ensures Ascends(t.blocks, fork, newBlock, path)
  {
    hide WellFormed, Ancestor;
    OnChainFacts(t, fork, newBlock);
    Here(t.blocks, newBlock);
    path := [];
    var current := Some(newBlock);
    while current.Some? && t.hash(current.value.header) != t.hash(fork.header)
      invariant |path| <= newBlock.header.height - fork.header.height
      invariant current.Some? && current == Ancestor(t.blocks, newBlock, |path|)
      invariant forall k :: 0 <= k < |path| ==> Ancestor(t.blocks, newBlock, |path| - 1 - k) == Some(path[k])
      decreases newBlock.header.height - |path|
    {
      StepBack(t, newBlock, |path|, current.value);
      SameHashSameBlock(t, current.value, fork);
      path := [current.value] + path;
      current := Parent(t.blocks, current.value);
    }
    StepBack(t, newBlock, |path|, current.value);
    SameHashSameBlock(t, current.value, fork);
  }

  /** A path that lists the ancestors of `tip` upwards from above `fork` is linked by parent hashes. */
  lemma ForkPathIsLinked(t: Tree, fork: Block, tip: Block, path: seq<Block>)
    requires WellFormed(t) && Stored(t, tip) && OnChain(t.blocks, fork, tip)
    requires Ascends(t.blocks, fork, tip, path)
    ensures path != [] ==> path[0].header.prevBlockHash == t.hash(fork.header) && path[|path| - 1] == tip
    ensures forall k :: 0 <= k < |path| - 1 ==> path[k + 1].header.prevBlockHash == t.hash(path[k].header)
  {
    hide WellFormed, Ancestor, OnChain;
    Here(t.blocks, tip);
    if path != [] {
      PathLink(t, fork, tip, path, 0);
    }
    forall k | 0 <= k < |path| - 1 ensures path[k + 1].header.prevBlockHash == t.hash(path[k].header) {
      PathLink(t, fork, tip, path, k + 1);
    }
  }

  lemma PathLink(t: Tree, fork: Block, tip: Block, path: seq<Block>, k: nat)
    requires WellFormed(t) && Stored(t, tip) && OnChain(t.blocks, fork, tip)
    requires k < |path| == tip.header.height - fork.header.height
    requires forall j :: 0 <= j < |path| ==> Ancestor(t.blocks, tip, |path| - 1 - j) == Some(path[j])
    ensures path[k].header.prevBlockHash == t.hash((if k == 0 then fork else path[k - 1]).header)
  {
    hide WellFormed, Ancestor, OnChain;
    OnChainFacts(t, fork, tip);
    StepBack(t, tip, |path| - 1 - k, path[k]);
    if k > 0 {
      assert Ancestor(t.blocks, tip, |path| - 1 - (k - 1)) == Some(path[k - 1]);
    }
    KeyIsHash(t, path[k].header.prevBlockHash);
  }

  // ---------- Validation ----------

  /** What the validator asks of a transaction. */
  lemma ValidExactlyWhen(tx: Transaction)
    ensures ValidTransaction(tx) <==>
            tx.version == 256 && |tx.from| == 16 && |tx.to| == 16 && tx.amount > 0 && |tx.signature| == 64
  {
  }

  predicate ValidTransaction(tx: Transaction) {
    && tx.version == PROTOCOL_VERSION
    && |tx.from| == 16 && |tx.to| == 16
    && tx.amount != 0
    && |tx.signature| == 64
  }

  datatype Verdict =
    | Accepted
    | InvalidVersion | InvalidBlockHeight | WrongParentHash
    | TimestampNotAfterParent | TimestampInFuture
    | MerkleRootMismatch | BadTransaction

  datatype AddResult =
    | Added
    | DuplicateBlock | ParentNotFound | ValidationFailed(verdict: Verdict)
    | TransactionInvalid | ExecutionFailed | StateRootMismatch
    | ForkDetected | ReorgFailed | RewardFailed

  /**
    The calls into the state database made while a block is added, as their outcomes: which of its
    transactions execute, which blocks of its branch replay when the chain is reorganised to it.
   */
  datatype Outcome = Outcome(executes: nat -> bool, stateRoot: Bytes, replays: Block -> bool, rewardPaid: bool)

  // ---------- The chain ----------

  class BlockChain {
    const hash: Header -> Bytes
    const sha: Merkle.Hash
    const txHash: Transaction -> Bytes
    const genesisBlock: Block
    var chainHead: Block
    var blocks: Blocks
    var heightMap: map<nat, seq<Block>>

    function Store(): Tree
      reads this
    {
      Tree(hash, blocks, genesisBlock)
    }

    ghost predicate Valid()
      reads this
    {
      WellFormed(Store()) && Indexed(Store(), heightMap) && Stored(Store(), chainHead)
    }

    constructor (hash: Header -> Bytes, sha: Merkle.Hash, txHash: Transaction -> Bytes, genesis: Block)
      ensures Valid() <==> genesis.header.height == 0 && NoHash(hash, genesis.header.prevBlockHash)
      ensures this.hash == hash && genesisBlock == genesis && chainHead == genesis
      ensures blocks == map[hash(genesis.header) := genesis]
    {
      this.hash, this.sha, this.txHash := hash, sha, txHash;
      genesisBlock := genesis;
      chainHead := genesis;
      blocks := map[hash(genesis.header) := genesis];
      heightMap := map[0 := [genesis]];
    }

    /** What the validator promises of a block, with heights as plain numbers. */
    ghost predicate Acceptable(block: Block, parent: Block, now: nat) {
      && block.header.version == PROTOCOL_VERSION
      && block.header.height == parent.header.height + 1
      && block.header.prevBlockHash == hash(parent.header)
      && parent.header.timestamp < block.header.timestamp <= now + 30
      && block.header.merkleRoot == Merkle.TransactionRoot(sha, txHash, block.transactions)
      && forall i :: 0 <= i < |block.transactions| ==> ValidTransaction(block.transactions[i])
    }

    /** The checks before the one a verdict names hold and that one fails, with heights as plain numbers. */
    ghost predicate Reports(block: Block, parent: Block, now: nat, verdict: Verdict) {
      var version := block.header.version == PROTOCOL_VERSION;
      var height := version && block.header.height == parent.header.height + 1;
      var linked := height && block.header.prevBlockHash == hash(parent.header);
      var after := linked && parent.header.timestamp < block.header.timestamp;
      var inTime := after && block.header.timestamp <= now + 30;
      var rooted := inTime && block.header.merkleRoot == Merkle.TransactionRoot(sha, txHash, block.transactions);
      match verdict
      case InvalidVersion => !version
      case InvalidBlockHeight => version && !height
      case WrongParentHash => height && !linked
      case TimestampNotAfterParent => linked && !after
      case TimestampInFuture => after && !inTime
      case MerkleRootMismatch => inTime && !rooted
      case BadTransaction => rooted && exists i :: 0 <= i < |block.transactions| && !ValidTransaction(block.transactions[i])
      case Accepted => rooted && forall i :: 0 <= i < |block.transactions| ==> ValidTransaction(block.transactions[i])
    }

    /** When a block is taken into the tree. */
    ghost predicate Admitted(before: Blocks, block: Block, now: nat, outcome: Outcome) {
      && hash(block.header) !in before
      && block.header.prevBlockHash in before
      && Acceptable(block, before[block.header.prevBlockHash], now)
      && (forall i :: 0 <= i < |block.transactions| ==> outcome.executes(i))
      && block.header.stateRoot == outcome.stateRoot
    }

    method ValidateBlock(block: Block, parent: Block, now: nat) returns (verdict: Verdict)
      requires parent.header.height < INT64
      requires now + 30 < INT64
      ensures verdict.Accepted? <==> Acceptable(block, parent, now)
      ensures Reports(block, parent, now, verdict)
      ensures verdict.Accepted? ==>
                && block.header.version == 256
                && block.header.height == parent.header.height + 1
                && parent.header.timestamp < block.header.timestamp <= now + 30
                && (forall i :: 0 <= i < |block.transactions| ==> ValidTransaction(block.transactions[i]))
                && (forall hashes :: Merkle.HashesOf(txHash, block.transactions, hashes) && block.transactions != [] ==>
                      block.header.merkleRoot == Merkle.Root(sha, hashes))
    {
      if block.header.version != PROTOCOL_VERSION {
        return InvalidVersion;
      }
      if block.header.height != (parent.header.height + 1) % UINT64 {
        return InvalidBlockHeight;
      }
      if block.header.prevBlockHash != hash(parent.header) {
        return WrongParentHash;
      }
      if block.header.timestamp <= parent.header.timestamp {
        return TimestampNotAfterParent;
      }
      if block.header.timestamp > now + 30 {
        return TimestampInFuture;
      }
      var computedMerkleRoot := Merkle.ComputeMerkleRoot(sha, txHash, block.transactions);
      if block.header.merkleRoot != computedMerkleRoot {
        return MerkleRootMismatch;
      }
      for i := 0 to |block.transactions|
        invariant forall k :: 0 <= k < i ==> ValidTransaction(block.transactions[k])
      {
        if !ValidTransaction(block.transactions[i]) {
          return BadTransaction;
        }
      }
      return Accepted;
    }

    method AddBlock(block: Block, now: nat, outcome: Outcome) returns (result: AddResult)
      requires Valid()
      requires now + 30 < INT64
      modifies this
      ensures Valid()
      ensures !result.ForkDetected? && !result.TransactionInvalid?
      ensures result.DuplicateBlock? <==> hash(block.header) in old(blocks)
      ensures result.ParentNotFound? <==> hash(block.header) !in old(blocks) && block.header.prevBlockHash !in old(blocks)
      ensures result.ValidationFailed? <==>
                && hash(block.header) !in old(blocks) && block.header.prevBlockHash in old(blocks)
                && !Acceptable(block, old(blocks)[block.header.prevBlockHash], now)
      ensures result.ValidationFailed? ==>
                Reports(block, old(blocks)[block.header.prevBlockHash], now, result.verdict)
      ensures result.ExecutionFailed? <==>
                && hash(block.header) !in old(blocks) && block.header.prevBlockHash in old(blocks)
                && Acceptable(block, old(blocks)[block.header.prevBlockHash], now)
                && exists i :: 0 <= i < |block.transactions| && !outcome.executes(i)
      ensures result.StateRootMismatch? <==>
                && hash(block.header) !in old(blocks) && block.header.prevBlockHash in old(blocks)
                && Acceptable(block, old(blocks)[block.header.prevBlockHash], now)
                && (forall i :: 0 <= i < |block.transactions| ==> outcome.executes(i))
                && block.header.stateRoot != outcome.stateRoot
      ensures result.ReorgFailed? <==>
                && Admitted(old(blocks), block, now, outcome)
                && block.header.height > old(chainHead).header.height
                && block.header.prevBlockHash != hash(old(chainHead).header)
                && !BranchReplays(blocks, old(chainHead), block, outcome.replays)
      ensures result.Added? ==> outcome.rewardPaid
      ensures result.RewardFailed? ==> !outcome.rewardPaid
      ensures result.Added? || result.ReorgFailed? || result.RewardFailed? <==> Admitted(old(blocks), block, now, outcome)
      ensures blocks == if Admitted(old(blocks), block, now, outcome) then old(blocks)[hash(block.header) := block] else old(blocks)
      ensures !Admitted(old(blocks), block, now, outcome) ==> heightMap == old(heightMap) && chainHead == old(chainHead)
      ensures result.ReorgFailed? ==> chainHead == old(chainHead)
      ensures result.Added? || result.RewardFailed? ==>
                chainHead == if block.header.height > old(chainHead).header.height then block else old(chainHead)
      ensures chainHead.header.height >= old(chainHead).header.height
    {
      hide WellFormed, Indexed, Ancestor, Reports, BranchReplays, IsForkPoint, Descends, Ascends, Merkle.TransactionRoot;
      var blockHash := hash(block.header);
      if blockHash in blocks {
        return DuplicateBlock;
      }
      if block.header.prevBlockHash !in blocks {
        return ParentNotFound;
      }
      var parent := blocks[block.header.prevBlockHash];
      KeyIsHash(Store(), block.header.prevBlockHash);
      HeightBelowTimestamp(Store(), parent);
      var verdict := ValidateBlock(block, parent, now);
      if !verdict.Accepted? {
        return ValidationFailed(verdict);
      }
      for i := 0 to |block.transactions|
        invariant forall k :: 0 <= k < i ==> outcome.executes(k)
      {
        if !ValidTransaction(block.transactions[i]) {
          return TransactionInvalid;
        }
        if !outcome.executes(i) {
          return ExecutionFailed;
        }
      }
      if block.header.stateRoot != outcome.stateRoot {
        return StateRootMismatch;
      }
      StoreBlock(block);
      if block.header.height > chainHead.header.height {
        if block.header.prevBlockHash != hash(chainHead.header) {
          ghost var fork, toRemove, toAdd;
          result, fork, toRemove, toAdd := SelectBestChain(block, outcome.replays);
          if !result.Added? {
            return;
          }
        }
        chainHead := block;
      }
      if !outcome.rewardPaid {
        return RewardFailed;
      }
      return Added;
    }

    method StoreBlock(block: Block)
      requires Valid()
      requires hash(block.header) !in blocks && ExtendsParent(blocks, block)
      modifies this`blocks, this`heightMap
      ensures Valid() && Stored(Store(), block)
      ensures blocks == old(blocks)[hash(block.header) := block]
    {
      hide WellFormed, Indexed, ExtendsParent, Stored;
      ghost var t := Store();
      GrowKeepsWellFormed(t, block);
      GrowKeepsIndex(Store(), heightMap, block);
      var height := block.header.height;
      var siblings := if height in heightMap then heightMap[height] else [];
      blocks := blocks[hash(block.header) := block];
      heightMap := heightMap[height := siblings + [block]];
      assert Store() == t.(blocks := blocks);
    }

    /**
      Reached only for a stored block higher than the head: always reorganises, never `ForkDetected`.
      It fails exactly when some block of the new branch does not replay.
     */
    method SelectBestChain(newBlock: Block, replays: Block -> bool)
        returns (result: AddResult, ghost fork: Block, ghost toRemove: seq<Block>, ghost toAdd: seq<Block>)
      requires Valid() && Stored(Store(), newBlock)
      requires newBlock.header.height > chainHead.header.height
      modifies this`chainHead
      ensures Valid()
      ensures IsForkPoint(blocks, newBlock, old(chainHead), fork)
      ensures Descends(blocks, old(chainHead), fork, toRemove) && Ascends(blocks, fork, newBlock, toAdd)
      ensures result == if forall k :: 0 <= k < |toAdd| ==> replays(toAdd[k]) then Added else ReorgFailed
      ensures result.Added? <==> BranchReplays(blocks, old(chainHead), newBlock, replays)
      ensures chainHead == if result.Added? then newBlock else old(chainHead)
    {
      hide WellFormed, Ancestor, Indexed, Descends, Ascends, BranchReplays;
      ghost var t := Store();
      var forkPoint := FindForkPoint(Store(), chainHead, newBlock);
      if forkPoint.None? {
        return ForkDetected, chainHead, [], [];
      }
      fork := forkPoint.value;
      OnChainFacts(t, fork, newBlock);
      OnChainFacts(t, fork, chainHead);
      var newChainDifficulty := CalculateChainDifficulty(Store(), newBlock, forkPoint.value.header.height);
      var currentChainDifficulty := CalculateChainDifficulty(Store(), chainHead, forkPoint.value.header.height);
      if newChainDifficulty > currentChainDifficulty {
        result, toRemove, toAdd := ReorgToNewChain(newBlock, forkPoint.value, replays);
        BranchIsPath(blocks, old(chainHead), newBlock, fork, toAdd, replays);
      } else {
        assert false;
      }
    }

    /** Replays the blocks of the new branch in order; undoing those of the old one does nothing and cannot fail. */
    method ReorgToNewChain(newBlock: Block, forkPoint: Block, replays: Block -> bool)
        returns (result: AddResult, ghost toRemove: seq<Block>, ghost toAdd: seq<Block>)
      requires Valid() && Stored(Store(), newBlock)
      requires OnChain(blocks, forkPoint, newBlock) && OnChain(blocks, forkPoint, chainHead)
      modifies this`chainHead
      ensures Valid()
      ensures Descends(blocks, old(chainHead), forkPoint, toRemove) && Ascends(blocks, forkPoint, newBlock, toAdd)
      ensures result == if forall k :: 0 <= k < |toAdd| ==> replays(toAdd[k]) then Added else ReorgFailed
      ensures chainHead == if result.Added? then newBlock else old(chainHead)
    {
      hide WellFormed, Ancestor, Indexed, OnChain;
      var removed := GetBlocksAfter(Store(), chainHead, forkPoint);
      var added := GetBlocksFromFork(Store(), forkPoint, newBlock);
      toRemove, toAdd := removed, added;
      for i := 0 to |added|
        invariant forall k :: 0 <= k < i ==> replays(added[k])
      {
        if !replays(added[i]) {
          return ReorgFailed, toRemove, toAdd;
        }
      }
      chainHead := newBlock;
      return Added, toRemove, toAdd;
    }
  }

  // ---------- The fork handler ----------

  /** What `IsForkPoint` says of one candidate. */
  lemma ForkPointFacts(t: Tree, a: Block, b: Block, fork: Block, c: Block)
    requires IsForkPoint(t.blocks, a, b, fork)
    ensures OnChain(t.blocks, fork, a) && OnChain(t.blocks, fork, b)
    ensures OnChain(t.blocks, c, a) && OnChain(t.blocks, c, b) ==>
              c.header.height <= fork.header.height && (c.header.height == fork.header.height ==> c == fork)
  {
  }

  /**
    fork.go: collect the hashes of `block` and its ancestors down to `maxForkDepth` below the head,
    then walk back from the head to the first collected one.  It finds the fork point of chain.go
    exactly when that is at most `maxForkDepth` below the head.  A head lower than `maxForkDepth`
    makes the unsigned subtraction wrap, and then nothing is found.
   */
  method FindRecentForkPoint(t: Tree, chainHead: Block, block: Block, maxForkDepth: nat) returns (result: Option<Block>)
    requires WellFormed(t) && Stored(t, chainHead) && Attached(t, block)
    requires maxForkDepth < INT64
    ensures forall fork :: IsForkPoint(t.blocks, block, chainHead, fork) ==>
              result == if maxForkDepth <= chainHead.header.height <= fork.header.height + maxForkDepth then Some(fork) else None
  {
    hide WellFormed, Ancestor, IsForkPoint, OnChain;
    HeightBelowTimestamp(t, chainHead);
    Here(t.blocks, block);
    Here(t.blocks, chainHead);
    ChainIsBelow(t.blocks, chainHead);
    var threshold := (chainHead.header.height + UINT64 - maxForkDepth) % UINT64;
    var visited := CollectRecent(t, block, threshold);
    var current := Some(chainHead);
    ghost var n := 0;
    while current.Some?
      invariant current == Ancestor(t.blocks, chainHead, n)
      invariant forall c :: OnChain(t.blocks, c, chainHead) && c.header.height > chainHead.header.height - n ==>
                  t.hash(c.header) !in visited
      decreases Remaining(current)
    {
      StepBack(t, chainHead, n, current.value);
      if t.hash(current.value.header) in visited {
        forall fork | IsForkPoint(t.blocks, block, chainHead, fork)
          ensures current.value == fork && threshold <= fork.header.height <= chainHead.header.height
        {
          ForkPointFacts(t, block, chainHead, fork, current.value);
          OnChainFacts(t, fork, chainHead);
        }
        return current;
      }
      SameHeightSameBlock(t, chainHead, current.value);
      current := Parent(t.blocks, current.value);
      n := n + 1;
    }
    WalkBack(t, chainHead, n);
    forall fork | IsForkPoint(t.blocks, block, chainHead, fork)
      ensures fork.header.height < threshold && fork.header.height <= chainHead.header.height
    {
      ForkPointFacts(t, block, chainHead, fork, fork);
      OnChainFacts(t, fork, chainHead);
    }
    return None;
  }

  /** The hashes of the blocks of height at least `threshold` on the path back from `block`. */
  method CollectRecent(t: Tree, block: Block, threshold: nat) returns (visited: set<Bytes>)
    requires WellFormed(t) && Attached(t, block)
    ensures forall c :: OnChain(t.blocks, c, block) && c.header.height >= threshold ==> t.hash(c.header) in visited
    ensures forall c :: Stored(t, c) && t.hash(c.header) in visited ==>
              OnChain(t.blocks, c, block) && c.header.height >= threshold
  {
    hide WellFormed, Ancestor, OnChain;
    Here(t.blocks, block);
    ChainIsBelow(t.blocks, block);
    visited := {};
    var current := Some(block);
    ghost var n := 0;
    while current.Some? && current.value.header.height >= threshold
      invariant current == Ancestor(t.blocks, block, n)
      invariant forall c :: OnChain(t.blocks, c, block) && c.header.height > block.header.height - n ==>
                  t.hash(c.header) in visited
      invariant forall c :: Stored(t, c) && t.hash(c.header) in visited ==>
                  OnChain(t.blocks, c, block) && c.header.height >= threshold
      decreases Remaining(current)
    {
      StepBack(t, block, n, current.value);
      SameHeightSameBlock(t, block, current.value);
      visited := visited + {t.hash(current.value.header)};
      current := Parent(t.blocks, current.value);
      n := n + 1;
    }
    WalkBack(t, block, n);
    if current.Some? {
      StepBack(t, block, n, current.value);
    }
  }

  /** The summed rewards of the blocks from `block` down to `startHeight`: it depends on heights only and never wraps. */
  method CalculateChainWork(t: Tree, block: Block, startHeight: nat) returns (work: nat)
    requires WellFormed(t) && Stored(t, block)
    ensures work == Emission.Span(startHeight, block.header.height + 1) < UINT64
  {
    hide WellFormed, Ancestor, OnChain, Attached, Stored, Emission.Span;
    HeightBelowTimestamp(t, block);
    AttachedIfStored(t, block);
    Here(t.blocks, block);
    work := 0;
    var current := Some(block);
    ghost var n := 0;
    Emission.SpanDown(block.header.height + 1, block.header.height + 1);
    Emission.SpanDown(startHeight, block.header.height + 1);
    while current.Some? && current.value.header.height >= startHeight
      invariant 0 <= n <= block.header.height + 1
      invariant current == Ancestor(t.blocks, block, n)
      invariant current.Some? ==> current.value.header.height == block.header.height - n
      invariant current.None? ==> n == block.header.height + 1
      invariant n > 0 ==> startHeight <= block.header.height + 1 - n
      invariant work == Emission.Span(block.header.height + 1 - n, block.header.height + 1)
      decreases Remaining(current)
    {
      StepBack(t, block, n, current.value);
      var reward := Emission.CalculateBlockReward(current.value.header.height);
      Emission.SpanDown(current.value.header.height, block.header.height + 1);
      work := (work + reward) % UINT64;
      current := Parent(t.blocks, current.value);
      n := n + 1;
    }
  }
}
