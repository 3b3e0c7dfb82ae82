/**
  Validator election (code/go/pkg/consensus/poc.go).

  The candidates are sorted by score, at most `cap` nodes per address prefix are kept, and the
  first `count` of those are elected.  The main theorem is that this greedy choice is optimal:
  no set of tracked nodes that respects both limits has a larger total score.
 */
module Election {

  datatype NodeScore = NodeScore(nodeID: string, score: real)

  type Scores = map<string, real>

  function ExtractPrefix(address: string): string {
    if |address| >= 8 then address[..8] else address
  }

  /** Two addresses share a prefix exactly when they agree in their first eight characters, or are equal when one is shorter. */
  lemma SharePrefixExactlyWhen(a: string, b: string)
    ensures ExtractPrefix(a) == ExtractPrefix(b) <==> if |a| >= 8 && |b| >= 8 then a[..8] == b[..8] else a == b
  {
  }

  function Max(a: int, b: int): int {
    if a >= b then a else b
  }

  // ---------- The election as a function of the ranking ----------

  /** How many of the first `k` ranked nodes are kept for `prefix`. */
  function Taken(ranking: seq<NodeScore>, k: nat, cap: int, prefix: string): nat
    requires k <= |ranking|
  {
    if k == 0 then 0 else
      Taken(ranking, k - 1, cap, prefix)
      + if ExtractPrefix(ranking[k - 1].nodeID) == prefix && Admits(ranking, k - 1, cap) then 1 else 0
  }

  predicate Admits(ranking: seq<NodeScore>, k: nat, cap: int)
    requires k < |ranking|
  {
    Taken(ranking, k, cap, ExtractPrefix(ranking[k].nodeID)) < cap
  }

  /** The kept nodes among the first `k`, in ranking order. */
  function Limited(ranking: seq<NodeScore>, k: nat, cap: int): seq<NodeScore>
    requires k <= |ranking|
  {
    if k == 0 then [] else
      Limited(ranking, k - 1, cap) + if Admits(ranking, k - 1, cap) then [ranking[k - 1]] else []
  }

  function Truncate(nodes: seq<NodeScore>, count: nat): seq<NodeScore> {
    if |nodes| <= count then nodes else nodes[..count]
  }

  // ---------- What an election is judged by ----------

  function NodeIDs(nodes: seq<NodeScore>): seq<string> {
    if nodes == [] then [] else NodeIDs(nodes[..|nodes| - 1]) + [nodes[|nodes| - 1].nodeID]
  }

  ghost function Elems(ids: seq<string>): set<string> {
    set id | id in ids
  }

  ghost function WithPrefix(ids: set<string>, prefix: string): set<string> {
    set id | id in ids && ExtractPrefix(id) == prefix
  }

  ghost predicate Feasible(scores: Scores, ids: set<string>, cap: int, count: nat) {
    && ids <= scores.Keys
    && |ids| <= count
    && forall prefix :: |WithPrefix(ids, prefix)| <= Max(0, cap)
  }

  ghost function StartingWith(ids: set<string>, start: string): set<string> {
    set id | id in ids && start <= id
  }

  /**
    What an election may return, in terms of the addresses themselves: at most `count` tracked nodes,
    of which at most `cap` start with any eight characters, and none at all when the cap is not positive.
   */
  ghost predicate Admissible(scores: Scores, ids: set<string>, cap: int, count: nat) {
    && ids <= scores.Keys
    && |ids| <= count
    && (forall start: string :: |start| == 8 ==> |StartingWith(ids, start)| <= Max(0, cap))
    && (ids != {} ==> cap > 0)
  }

  lemma PrefixIsStart(ids: set<string>, start: string)
    requires |start| == 8
    ensures StartingWith(ids, start) == WithPrefix(ids, start)
  {
    assert forall id: string :: start <= id ==> id[..8] == start;
  }

  /** An address of fewer than eight characters is its own prefix. */
  lemma ShortPrefix(ids: set<string>, prefix: string)
    requires |prefix| != 8
    ensures |WithPrefix(ids, prefix)| <= 1
  {
    var only := WithPrefix(ids, prefix);
    assert forall id :: id in only ==> id == prefix;
    if only != {} {
      assert only == {prefix};
    }
  }

  lemma FeasibleIsAdmissible(scores: Scores, ids: set<string>, cap: int, count: nat)
    ensures Feasible(scores, ids, cap, count) <==> Admissible(scores, ids, cap, count)
  {
    if Feasible(scores, ids, cap, count) {
      forall start: string | |start| == 8 ensures |StartingWith(ids, start)| <= Max(0, cap) {
        PrefixIsStart(ids, start);
      }
      if ids != {} {
        var id :| id in ids;
        assert id in WithPrefix(ids, ExtractPrefix(id));
      }
    }
    if Admissible(scores, ids, cap, count) {
      forall prefix ensures |WithPrefix(ids, prefix)| <= Max(0, cap) {
        if |prefix| == 8 {
          PrefixIsStart(ids, prefix);
        } else {
          ShortPrefix(ids, prefix);
          SubsetCardinality(WithPrefix(ids, prefix), ids);
        }
      }
    }
  }

  /** The total score of a set of tracked nodes. */
  ghost function Total(scores: Scores, ids: set<string>): real
    requires ids <= scores.Keys
  {
    if ids == {} then 0.0 else
      var id :| id in ids;
      scores[id] + Total(scores, ids - {id})
  }

  /** `ranking` lists distinct tracked nodes with their scores, best first. */
  ghost predicate Ranked(scores: Scores, ranking: seq<NodeScore>) {
    && (forall i :: 0 <= i < |ranking| ==>
          ranking[i].nodeID in scores && ranking[i].score == scores[ranking[i].nodeID])
    && (forall i, j :: 0 <= i < j < |ranking| ==> ranking[i].nodeID != ranking[j].nodeID)
    && (forall i, j :: 0 <= i < j < |ranking| ==> ranking[i].score >= ranking[j].score)
  }

  ghost predicate NonNegative(scores: Scores) {
    forall id :: id in scores ==> scores[id] >= 0.0
  }

  // ---------- Counting and summing along the ranking ----------

  ghost function Seen(ranking: seq<NodeScore>, k: nat): set<string>
    requires k <= |ranking|
  {
    if k == 0 then {} else Seen(ranking, k - 1) + {ranking[k - 1].nodeID}
  }

  /** The ids kept among the first `k`. */
  ghost function Kept(ranking: seq<NodeScore>, k: nat, cap: int): set<string>
    requires k <= |ranking|
  {
    if k == 0 then {}
    else if Admits(ranking, k - 1, cap) then Kept(ranking, k - 1, cap) + {ranking[k - 1].nodeID}
    else Kept(ranking, k - 1, cap)
  }

  /** The total score of those of the first `k` ranked nodes that are in `ids`. */
  ghost function Gain(ranking: seq<NodeScore>, k: nat, ids: set<string>): real
    requires k <= |ranking|
  {
    if k == 0 then 0.0 else
      Gain(ranking, k - 1, ids) + if ranking[k - 1].nodeID in ids then ranking[k - 1].score else 0.0
  }

  ghost function Times(n: nat, x: real): real {
    if n == 0 then 0.0 else x + Times(n - 1, x)
  }

  lemma TimesMonotone(n: nat, low: real, high: real)
    requires low <= high
    ensures Times(n, low) <= Times(n, high)
  {
  }

  lemma {:induction false} NotYetSeen(scores: Scores, ranking: seq<NodeScore>, k: nat, j: nat)
    requires Ranked(scores, ranking) && k <= j < |ranking|
    ensures ranking[j].nodeID !in Seen(ranking, k)
  {
    if k > 0 {
      NotYetSeen(scores, ranking, k - 1, j);
    }
  }

  lemma SubsetCardinality(a: set<string>, b: set<string>)
    requires a <= b
    ensures |a| <= |b|
  {
    assert b == a + (b - a);
  }

  lemma {:induction false} TotalAdd(scores: Scores, ids: set<string>, x: string)
    requires ids <= scores.Keys && x in scores && x !in ids
    ensures Total(scores, ids + {x}) == Total(scores, ids) + scores[x]
    decreases ids
  {
    var all := ids + {x};
    var y :| y in all && Total(scores, all) == scores[y] + Total(scores, all - {y});
    if y == x {
      assert all - {x} == ids;
    } else {
      TotalAdd(scores, ids - {y}, x);
      assert all - {y} == (ids - {y}) + {x};
      TotalAdd(scores, ids - {y}, y);
      assert (ids - {y}) + {y} == ids;
    }
  }

  lemma {:induction false} GainIsTotal(scores: Scores, ranking: seq<NodeScore>, k: nat, ids: set<string>)
    requires Ranked(scores, ranking) && k <= |ranking|
    ensures ids * Seen(ranking, k) <= scores.Keys
    ensures Gain(ranking, k, ids) == Total(scores, ids * Seen(ranking, k))
  {
    if k == 0 {
      assert ids * Seen(ranking, k) == {};
    } else {
      var id := ranking[k - 1].nodeID;
      GainIsTotal(scores, ranking, k - 1, ids);
      NotYetSeen(scores, ranking, k - 1, k - 1);
      if id in ids {
        assert ids * Seen(ranking, k) == ids * Seen(ranking, k - 1) + {id};
        TotalAdd(scores, ids * Seen(ranking, k - 1), id);
      } else {
        assert ids * Seen(ranking, k) == ids * Seen(ranking, k - 1);
      }
    }
  }

  /** A set that is no larger than another on every prefix is no larger as a whole. */
  lemma {:induction false} CountByPrefix(a: set<string>, b: set<string>)
    requires forall prefix :: |WithPrefix(a, prefix)| <= |WithPrefix(b, prefix)|
    ensures |a| <= |b|
    decreases a
  {
    if a != {} {
      var id :| id in a;
      var p := ExtractPrefix(id);
      var a', b' := a - WithPrefix(a, p), b - WithPrefix(b, p);
      assert id in WithPrefix(a, p);
      forall q ensures |WithPrefix(a', q)| <= |WithPrefix(b', q)| {
        if q == p {
          assert WithPrefix(a', q) == {};
        } else {
          assert WithPrefix(a', q) == WithPrefix(a, q) && WithPrefix(b', q) == WithPrefix(b, q);
        }
      }
      CountByPrefix(a', b');
      assert a == a' + WithPrefix(a, p) && b == b' + WithPrefix(b, p);
    }
  }

  // ---------- The per-prefix cap ----------

  lemma {:induction false} KeptIsLimited(scores: Scores, ranking: seq<NodeScore>, k: nat, cap: int)
    requires Ranked(scores, ranking) && k <= |ranking|
    ensures Kept(ranking, k, cap) <= Seen(ranking, k)
    ensures |Limited(ranking, k, cap)| == |Kept(ranking, k, cap)|
  {
    if k > 0 {
      KeptIsLimited(scores, ranking, k - 1, cap);
      NotYetSeen(scores, ranking, k - 1, k - 1);
    }
  }

  lemma NodeIDsSnoc(nodes: seq<NodeScore>, node: NodeScore)
    ensures NodeIDs(nodes + [node]) == NodeIDs(nodes) + [node.nodeID]
    ensures Elems(NodeIDs(nodes + [node])) == Elems(NodeIDs(nodes)) + {node.nodeID}
  {
    assert (nodes + [node])[..|nodes|] == nodes;
  }

  lemma WithPrefixAdd(ids: set<string>, x: string, prefix: string)
    ensures WithPrefix(ids + {x}, prefix) ==
            if ExtractPrefix(x) == prefix then WithPrefix(ids, prefix) + {x} else WithPrefix(ids, prefix)
  {
  }

  /** Every prefix is either full or completely taken. */
  lemma {:induction false} KeptSaturates(scores: Scores, ranking: seq<NodeScore>, k: nat, cap: int, prefix: string)
    requires Ranked(scores, ranking) && k <= |ranking|
    ensures Taken(ranking, k, cap, prefix) == |WithPrefix(Kept(ranking, k, cap), prefix)| <= Max(0, cap)
    ensures Taken(ranking, k, cap, prefix) < cap ==>
              WithPrefix(Kept(ranking, k, cap), prefix) == WithPrefix(Seen(ranking, k), prefix)
  {
    if k == 0 {
      assert WithPrefix(Kept(ranking, k, cap), prefix) == {} == WithPrefix(Seen(ranking, k), prefix);
    } else {
      var id := ranking[k - 1].nodeID;
      KeptSaturates(scores, ranking, k - 1, cap, prefix);
      KeptIsLimited(scores, ranking, k - 1, cap);
      NotYetSeen(scores, ranking, k - 1, k - 1);
      WithPrefixAdd(Kept(ranking, k - 1, cap), id, prefix);
      WithPrefixAdd(Seen(ranking, k - 1), id, prefix);
    }
  }

  // ---------- Optimality ----------

  /** In every prefix of the ranking, the kept nodes are at least as many as a rival's. */
  lemma KeptPicksMost(scores: Scores, ranking: seq<NodeScore>, k: nat, cap: int, count: nat, rival: set<string>)
    requires Ranked(scores, ranking) && k <= |ranking| && Feasible(scores, rival, cap, count)
    ensures |rival * Seen(ranking, k)| <= |Limited(ranking, k, cap)|
    ensures |rival * Seen(ranking, k)| <= count
  {
    var mine, kept := rival * Seen(ranking, k), Kept(ranking, k, cap);
    forall prefix ensures |WithPrefix(mine, prefix)| <= |WithPrefix(kept, prefix)| {
      KeptSaturates(scores, ranking, k, cap, prefix);
      SubsetCardinality(WithPrefix(mine, prefix), WithPrefix(rival, prefix));
      SubsetCardinality(WithPrefix(mine, prefix), WithPrefix(Seen(ranking, k), prefix));
    }
    CountByPrefix(mine, kept);
    KeptIsLimited(scores, ranking, k, cap);
    SubsetCardinality(mine, rival);
  }

  /** Whether the `k`-th ranked node is elected: it is kept and the committee is not full yet. */
  predicate Wins(ranking: seq<NodeScore>, k: nat, cap: int, count: nat)
    requires k < |ranking|
  {
    Admits(ranking, k, cap) && |Limited(ranking, k, cap)| < count
  }

  ghost function Winners(ranking: seq<NodeScore>, k: nat, cap: int, count: nat): set<string>
    requires k <= |ranking|
  {
    if k == 0 then {}
    else if Wins(ranking, k - 1, cap, count) then Winners(ranking, k - 1, cap, count) + {ranking[k - 1].nodeID}
    else Winners(ranking, k - 1, cap, count)
  }

  lemma {:induction false} WinnersAreKept(scores: Scores, ranking: seq<NodeScore>, k: nat, cap: int, count: nat)
    requires Ranked(scores, ranking) && k <= |ranking|
    ensures Winners(ranking, k, cap, count) <= Kept(ranking, k, cap)
    ensures |Winners(ranking, k, cap, count)| == |Truncate(Limited(ranking, k, cap), count)|
  {
    if k > 0 {
      WinnersAreKept(scores, ranking, k - 1, cap, count);
      KeptIsLimited(scores, ranking, k - 1, cap);
      NotYetSeen(scores, ranking, k - 1, k - 1);
    }
  }

  lemma {:induction false} WinnersAreTruncated(ranking: seq<NodeScore>, k: nat, cap: int, count: nat)
    requires k <= |ranking|
    ensures Elems(NodeIDs(Truncate(Limited(ranking, k, cap), count))) == Winners(ranking, k, cap, count)
  {
    hide Taken, Admits, NodeIDs, Elems;
    EmptyLists();
    if k > 0 {
      WinnersAreTruncated(ranking, k - 1, cap, count);
      var before := Truncate(Limited(ranking, k - 1, cap), count);
      if Wins(ranking, k - 1, cap, count) {
        NodeIDsSnoc(before, ranking[k - 1]);
      } else {
        assert Truncate(Limited(ranking, k, cap), count) == before;
      }
    }
  }

  /** How far the elected nodes among the first `k` outnumber the rival's. */
  ghost function Lead(ranking: seq<NodeScore>, k: nat, cap: int, count: nat, rival: set<string>): int
    requires k <= |ranking|
  {
    |Winners(ranking, k, cap, count)| - |rival * Seen(ranking, k)|
  }

  lemma LeadIsNatural(scores: Scores, ranking: seq<NodeScore>, k: nat, cap: int, count: nat, rival: set<string>)
    requires Ranked(scores, ranking) && Feasible(scores, rival, cap, count) && k <= |ranking|
    ensures 0 <= Lead(ranking, k, cap, count, rival)
  {
    KeptPicksMost(scores, ranking, k, cap, count, rival);
    WinnersAreKept(scores, ranking, k, cap, count);
  }

  lemma OneMore(rival: set<string>, seen: set<string>, id: string)
    requires id !in seen
    ensures |rival * (seen + {id})| == |rival * seen| + if id in rival then 1 else 0
  {
    if id in rival {
      assert rival * (seen + {id}) == rival * seen + {id};
    } else {
      assert rival * (seen + {id}) == rival * seen;
    }
  }

  lemma LeadStep(scores: Scores, ranking: seq<NodeScore>, k: nat, cap: int, count: nat, rival: set<string>)
    requires Ranked(scores, ranking) && 0 < k <= |ranking|
    ensures Lead(ranking, k, cap, count, rival) == Lead(ranking, k - 1, cap, count, rival)
            + (if Wins(ranking, k - 1, cap, count) then 1 else 0)
            - (if ranking[k - 1].nodeID in rival then 1 else 0)
  {
    NotYetSeen(scores, ranking, k - 1, k - 1);
    OneMore(rival, Seen(ranking, k - 1), ranking[k - 1].nodeID);
    WinnerMembership(scores, ranking, k - 1, k - 1, cap, count);
  }

  lemma {:induction false} WinnersGain(scores: Scores, ranking: seq<NodeScore>, k: nat, j: nat, cap: int, count: nat)
    requires Ranked(scores, ranking) && k <= j <= |ranking|
    ensures Gain(ranking, k, Winners(ranking, j, cap, count)) == WinnersScore(ranking, k, cap, count)
  {
    if k > 0 {
      WinnersGain(scores, ranking, k - 1, j, cap, count);
      WinnerMembership(scores, ranking, k - 1, j, cap, count);
    }
  }

  lemma {:induction false} WinnerMembership(scores: Scores, ranking: seq<NodeScore>, i: nat, j: nat, cap: int, count: nat)
    requires Ranked(scores, ranking) && j <= |ranking| && i < |ranking|
    ensures ranking[i].nodeID in Winners(ranking, j, cap, count) <==> i < j && Wins(ranking, i, cap, count)
  {
    if j > 0 {
      WinnerMembership(scores, ranking, i, j - 1, cap, count);
    }
  }

  ghost function WinnersScore(ranking: seq<NodeScore>, k: nat, cap: int, count: nat): real
    requires k <= |ranking|
  {
    if k == 0 then 0.0 else
      WinnersScore(ranking, k - 1, cap, count) + if Wins(ranking, k - 1, cap, count) then ranking[k - 1].score else 0.0
  }

  /**
    In every prefix of the ranking the lead of the elected nodes in score is at least their lead
    in number times the lowest score seen so far.
   */
  lemma {:induction false} GreedyKeepsLead(scores: Scores, ranking: seq<NodeScore>, k: nat, cap: int, count: nat, rival: set<string>)
    requires Ranked(scores, ranking) && Feasible(scores, rival, cap, count) && 0 < k <= |ranking|
    ensures 0 <= Lead(ranking, k, cap, count, rival)
    ensures Gain(ranking, k, rival) + Times(Lead(ranking, k, cap, count, rival), ranking[k - 1].score)
            <= WinnersScore(ranking, k, cap, count)
  {
    LeadIsNatural(scores, ranking, k, cap, count, rival);
    LeadIsNatural(scores, ranking, k - 1, cap, count, rival);
    LeadStep(scores, ranking, k, cap, count, rival);
    var before := Lead(ranking, k - 1, cap, count, rival);
    if k == 1 {
      assert rival * Seen(ranking, 0) == {};
    } else {
      GreedyKeepsLead(scores, ranking, k - 1, cap, count, rival);
      TimesMonotone(before, ranking[k - 1].score, ranking[k - 2].score);
    }
  }

  lemma NoRivalBeats(scores: Scores, ranking: seq<NodeScore>, cap: int, count: nat, rival: set<string>)
    requires Ranked(scores, ranking) && Seen(ranking, |ranking|) == scores.Keys && NonNegative(scores)
    requires Feasible(scores, rival, cap, count)
    ensures Winners(ranking, |ranking|, cap, count) <= scores.Keys
    ensures Total(scores, rival) <= Total(scores, Winners(ranking, |ranking|, cap, count))
  {
    var n := |ranking|;
    var winners := Winners(ranking, n, cap, count);
    WinnersAreKept(scores, ranking, n, cap, count);
    KeptIsLimited(scores, ranking, n, cap);
    GainIsTotal(scores, ranking, n, rival);
    GainIsTotal(scores, ranking, n, winners);
    WinnersGain(scores, ranking, n, n, cap, count);
    assert rival * Seen(ranking, n) == rival && winners * Seen(ranking, n) == winners;
    if n > 0 {
      GreedyKeepsLead(scores, ranking, n, cap, count, rival);
      TimesMonotone(Lead(ranking, n, cap, count, rival), 0.0, ranking[n - 1].score);
      TimesZero(Lead(ranking, n, cap, count, rival));
    }
  }

  lemma TimesZero(n: nat)
    ensures Times(n, 0.0) == 0.0
  {
  }

  /** The election respects both limits and no admissible set of nodes has a larger total score. */
  lemma GreedyOptimal(scores: Scores, ranking: seq<NodeScore>, cap: int, count: nat)
    requires Ranked(scores, ranking) && Seen(ranking, |ranking|) == scores.Keys && NonNegative(scores)
    ensures var elected := NodeIDs(Truncate(Limited(ranking, |ranking|, cap), count));
      && |Elems(elected)| == |elected|
      && Feasible(scores, Elems(elected), cap, count)
      && forall rival :: Feasible(scores, rival, cap, count) ==> Total(scores, rival) <= Total(scores, Elems(elected))
  {
    var n := |ranking|;
    var winners := Winners(ranking, n, cap, count);
    WinnersAreKept(scores, ranking, n, cap, count);
    WinnersAreTruncated(ranking, n, cap, count);
    KeptIsLimited(scores, ranking, n, cap);
    NodeIDsLength(Truncate(Limited(ranking, n, cap), count));
    forall prefix ensures |WithPrefix(winners, prefix)| <= Max(0, cap) {
      KeptSaturates(scores, ranking, n, cap, prefix);
      SubsetCardinality(WithPrefix(winners, prefix), WithPrefix(Kept(ranking, n, cap), prefix));
    }
    forall rival | Feasible(scores, rival, cap, count) ensures Total(scores, rival) <= Total(scores, winners) {
      NoRivalBeats(scores, ranking, cap, count, rival);
    }
  }

  /** The same in terms of the addresses: no set within the caps on first eight characters scores more. */
  lemma ElectionOptimal(scores: Scores, ranking: seq<NodeScore>, cap: int, count: nat)
    requires Ranked(scores, ranking) && Seen(ranking, |ranking|) == scores.Keys && NonNegative(scores)
    ensures var elected := NodeIDs(Truncate(Limited(ranking, |ranking|, cap), count));
      && |Elems(elected)| == |elected|
      && Admissible(scores, Elems(elected), cap, count)
      && forall rival :: Admissible(scores, rival, cap, count) ==> Total(scores, rival) <= Total(scores, Elems(elected))
  {
    GreedyOptimal(scores, ranking, cap, count);
    hide Feasible, Admissible, Limited, Truncate, NodeIDs, Total;
    var elected := NodeIDs(Truncate(Limited(ranking, |ranking|, cap), count));
    FeasibleIsAdmissible(scores, Elems(elected), cap, count);
    forall rival | Admissible(scores, rival, cap, count) ensures Total(scores, rival) <= Total(scores, Elems(elected)) {
      FeasibleIsAdmissible(scores, rival, cap, count);
    }
  }

  /** The earlier kept nodes that count against the cap of the `k`-th. */
  ghost function Rivals(ranking: seq<NodeScore>, n: nat, k: nat, cap: int): set<nat>
    requires n <= k < |ranking|
  {
    set i: nat | i < n && Admits(ranking, i, cap) && SameStart(ranking[i].nodeID, ranking[k].nodeID)
  }

  predicate SameStart(a: string, b: string) {
    if |a| >= 8 && |b| >= 8 then a[..8] == b[..8] else a == b
  }

  lemma {:induction false} TakenCounts(ranking: seq<NodeScore>, n: nat, k: nat, cap: int)
    requires n <= k < |ranking|
    ensures Taken(ranking, n, cap, ExtractPrefix(ranking[k].nodeID)) == |Rivals(ranking, n, k, cap)|
  {
    hide ExtractPrefix;
    if n > 0 {
      TakenCounts(ranking, n - 1, k, cap);
      SharePrefixExactlyWhen(ranking[n - 1].nodeID, ranking[k].nodeID);
      var before := Rivals(ranking, n - 1, k, cap);
      assert Rivals(ranking, n, k, cap) ==
        if Admits(ranking, n - 1, cap) && SameStart(ranking[n - 1].nodeID, ranking[k].nodeID) then before + {n - 1} else before;
    }
  }

  /** A node is kept exactly when fewer than `cap` better nodes with the same first eight characters are. */
  lemma KeptExactlyWhen(ranking: seq<NodeScore>, k: nat, cap: int)
    requires k < |ranking|
    ensures Limited(ranking, k + 1, cap) == Limited(ranking, k, cap) +
            if |Rivals(ranking, k, k, cap)| < cap then [ranking[k]] else []
  {
    TakenCounts(ranking, k, k, cap);
  }

  lemma NodeIDsLength(nodes: seq<NodeScore>)
    ensures |NodeIDs(nodes)| == |nodes|
    ensures forall i :: 0 <= i < |nodes| ==> NodeIDs(nodes)[i] == nodes[i].nodeID
  {
  }

  /** Keeping nodes in ranking order leaves them best first. */
  lemma {:induction false} LimitedIsSorted(scores: Scores, ranking: seq<NodeScore>, k: nat, cap: int)
    requires Ranked(scores, ranking) && k <= |ranking|
    ensures BestFirst(scores, Limited(ranking, k, cap))
    ensures forall i, j :: 0 <= i < |Limited(ranking, k, cap)| && k <= j < |ranking| ==> Limited(ranking, k, cap)[i].score >= ranking[j].score
  {
    hide Admits;
    if k > 0 {
      LimitedIsSorted(scores, ranking, k - 1, cap);
    }
  }

  ghost predicate BestFirst(scores: Scores, nodes: seq<NodeScore>) {
    && (forall i :: 0 <= i < |nodes| ==> nodes[i].nodeID in scores && nodes[i].score == scores[nodes[i].nodeID])
    && (forall i, j :: 0 <= i < j < |nodes| ==> nodes[i].score >= nodes[j].score)
  }

  // ---------- The methods ----------

  method GetTopValidators(scores: Scores, maxPerPrefix: int, count: nat) returns (validators: seq<string>)
    requires NonNegative(scores)
    ensures var elected := Elems(validators);
      && |elected| == |validators|
      && Admissible(scores, elected, maxPerPrefix, count)
      && forall rival :: Admissible(scores, rival, maxPerPrefix, count) ==> Total(scores, rival) <= Total(scores, elected)
    ensures forall i :: 0 <= i < |validators| ==> validators[i] in scores
    ensures forall i, j :: 0 <= i < j < |validators| ==> scores[validators[i]] >= scores[validators[j]]
  {
    hide Admissible, Total, Limited, Elems, Seen, NonNegative, NodeIDs;
    var candidates := CollectScores(scores);
    var ranking := SortByScore(scores, candidates);
    var filtered := ApplyPrefixLimits(ranking, maxPerPrefix);
    validators := [];
    var i := 0;
    while i < count && i < |filtered|
      invariant 0 <= i <= |filtered| && i <= count
      invariant |validators| == i
      invariant forall j :: 0 <= j < i ==> validators[j] == filtered[j].nodeID
    {
      validators := validators + [filtered[i].nodeID];
      i := i + 1;
    }
    LimitedIsSorted(scores, ranking, |ranking|, maxPerPrefix);
    ElectionOptimal(scores, ranking, maxPerPrefix, count);
    NodeIDsLength(Truncate(filtered, count));
    assert validators == NodeIDs(Truncate(filtered, count));
  }

  method ApplyPrefixLimits(ranking: seq<NodeScore>, cap: int) returns (result: seq<NodeScore>)
    ensures result == Limited(ranking, |ranking|, cap)
  {
    var prefixCounts: map<string, int> := map[];
    result := [];
    for k := 0 to |ranking|
      invariant result == Limited(ranking, k, cap)
      invariant forall p :: Taken(ranking, k, cap, p) == if p in prefixCounts then prefixCounts[p] else 0
    {
      var prefix := ExtractPrefix(ranking[k].nodeID);
      var soFar := if prefix in prefixCounts then prefixCounts[prefix] else 0;
      if soFar < cap {
        result := result + [ranking[k]];
        prefixCounts := prefixCounts[prefix := soFar + 1];
      }
    }
  }

  ghost predicate Tracked(scores: Scores, nodes: seq<NodeScore>) {
    && (forall i :: 0 <= i < |nodes| ==> nodes[i].nodeID in scores && nodes[i].score == scores[nodes[i].nodeID])
    && (forall i, j :: 0 <= i < j < |nodes| ==> nodes[i].nodeID != nodes[j].nodeID)
  }

  /** Walks the contribution map, in whatever order. */
  method CollectScores(scores: Scores) returns (candidates: seq<NodeScore>)
    ensures Tracked(scores, candidates) && Elems(NodeIDs(candidates)) == scores.Keys
  {
    candidates := [];
    var remaining := scores.Keys;
    while remaining != {}
      invariant remaining <= scores.Keys
      invariant Tracked(scores, candidates)
      invariant Elems(NodeIDs(candidates)) == scores.Keys - remaining
      decreases remaining
    {
      var nodeID :| nodeID in remaining;
      NodeIDsLength(candidates);
      NodeIDsSnoc(candidates, NodeScore(nodeID, scores[nodeID]));
      assert forall i :: 0 <= i < |candidates| ==> NodeIDs(candidates)[i] in Elems(NodeIDs(candidates));
      candidates := candidates + [NodeScore(nodeID, scores[nodeID])];
      remaining := remaining - {nodeID};
    }
  }

  /** Stands for sort.Slice: the same candidates, best score first. */
  method SortByScore(scores: Scores, candidates: seq<NodeScore>) returns (ranking: seq<NodeScore>)
    requires Tracked(scores, candidates)
    ensures Ranked(scores, ranking) && Seen(ranking, |ranking|) == Elems(NodeIDs(candidates))
  {
    hide NodeIDs, Seen;
    EmptyLists();
    ranking := [];
    for k := 0 to |candidates|
      invariant Ranked(scores, ranking)
      invariant Seen(ranking, |ranking|) == Elems(NodeIDs(candidates[..k]))
    {
      var pos := |ranking|;
      while pos > 0 && ranking[pos - 1].score < candidates[k].score
        invariant 0 <= pos <= |ranking|
        invariant forall i :: pos <= i < |ranking| ==> ranking[i].score < candidates[k].score
      {
        pos := pos - 1;
      }
      assert candidates[..k + 1] == candidates[..k] + [candidates[k]];
      NodeIDsSnoc(candidates[..k], candidates[k]);
      NodeIDsLength(candidates[..k]);
      InsertKeepsRanked(scores, ranking, pos, candidates[k]);
      ranking := ranking[..pos] + [candidates[k]] + ranking[pos..];
    }
    assert candidates[..|candidates|] == candidates;
  }

  lemma EmptyLists()
    ensures NodeIDs([]) == [] && Elems([]) == {} && Seen([], 0) == {}
  {
  }

  lemma {:induction false} SeenMembers(ranking: seq<NodeScore>, k: nat, id: string)
    requires k <= |ranking|
    ensures id in Seen(ranking, k) <==> exists i :: 0 <= i < k && ranking[i].nodeID == id
  {
    if k > 0 {
      SeenMembers(ranking, k - 1, id);
      assert ranking[k - 1].nodeID in Seen(ranking, k);
    }
  }

  lemma InsertKeepsRanked(scores: Scores, ranking: seq<NodeScore>, pos: nat, node: NodeScore)
    requires Ranked(scores, ranking) && pos <= |ranking|
    requires node.nodeID in scores && node.score == scores[node.nodeID] && node.nodeID !in Seen(ranking, |ranking|)
    requires forall i :: pos <= i < |ranking| ==> ranking[i].score < node.score
    requires pos > 0 ==> ranking[pos - 1].score >= node.score
    ensures var r := ranking[..pos] + [node] + ranking[pos..];
      Ranked(scores, r) && Seen(r, |r|) == Seen(ranking, |ranking|) + {node.nodeID}
  {
    hide Seen;
    var r := ranking[..pos] + [node] + ranking[pos..];
    InsertSeen(ranking, pos, node, |r|);
    SeenMembers(ranking, |ranking|, node.nodeID);
    forall i, j | 0 <= i < j < |r| ensures r[i].nodeID != r[j].nodeID && r[i].score >= r[j].score {
      if i == pos {
        assert r[j] == ranking[j - 1];
      } else if j == pos {
        assert r[i] == ranking[i];
      } else {
        assert r[i] == ranking[if i < pos then i else i - 1] && r[j] == ranking[if j < pos then j else j - 1];
      }
    }
  }

  lemma {:induction false} InsertSeen(ranking: seq<NodeScore>, pos: nat, node: NodeScore, k: nat)
    requires pos <= |ranking| && k <= |ranking| + 1
    ensures var r := ranking[..pos] + [node] + ranking[pos..];
      Seen(r, k) == if k <= pos then Seen(ranking, k) else Seen(ranking, k - 1) + {node.nodeID}
  {
    if k > 0 {
      InsertSeen(ranking, pos, node, k - 1);
    }
  }
}
