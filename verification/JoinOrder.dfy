// The order in which build_join_plan joins the tables of an explicit join.
module JoinOrder {
  predicate Apart(order: seq<nat>, i: nat, j: nat)
    requires i < |order| && j < |order|
  {
    order[i] != order[j]
  }

  /** Every number below n exactly once. */
  predicate IsOrder(order: seq<nat>, n: nat) {
    && |order| == n
    && (forall i | 0 <= i < n :: order[i] < n)
    && (forall i, j {:trigger Apart(order, i, j)} | 0 <= i < j < n :: Apart(order, i, j))
    && (forall x | 0 <= x < n :: x in order)
  }

  /** Table a is joined before table b: it has fewer rows, or as many and comes first in the statement. */
  predicate JoinedBefore(a: nat, b: nat, counts: seq<int>)
    requires a < |counts| && b < |counts|
  {
    counts[a] < counts[b] || (counts[a] == counts[b] && a < b)
  }

  /** The tables come with ever larger row counts. */
  predicate Ascending(order: seq<nat>, counts: seq<int>) {
    && (forall i | 0 <= i < |order| :: order[i] < |counts|)
    && (forall i, j | 0 <= i < j < |order| :: JoinedBefore(order[i], order[j], counts))
  }

  ghost function Below(n: nat): (s: set<nat>)
    ensures |s| == n && forall i: nat :: i in s <==> i < n
  {
    if n == 0 then {} else Below(n - 1) + {n - 1}
  }

  /** Each loop of the greedy choice: the first unused table with the fewest rows. */
  method FewestRows(counts: seq<int>, used: seq<bool>) returns (min: nat)
    requires |used| == |counts| && exists i :: 0 <= i < |used| && !used[i]
    ensures min < |counts| && !used[min]
    ensures forall i | 0 <= i < |counts| && !used[i] ::
      counts[min] <= counts[i] && (i < min ==> counts[min] < counts[i])
  {
    var best: int := -1;
    for i := 0 to |counts|
      invariant -1 <= best < i && (best >= 0 ==> !used[best])
      invariant best == -1 ==> forall j | 0 <= j < i :: used[j]
      invariant best >= 0 ==> forall j | 0 <= j < i && !used[j] ::
        counts[best] <= counts[j] && (j < best ==> counts[best] < counts[j])
    {
      if !used[i] && (best == -1 || counts[i] < counts[best]) { best := i; }
    }
    min := best;
  }

  /** The greedy order: always the remaining table with the fewest rows. */
  method GreedyOrder(counts: seq<int>) returns (order: seq<nat>)
    ensures IsOrder(order, |counts|) && Ascending(order, counts)
  {
    var n := |counts|;
    var used := seq(n, _ => false);
    ghost var unused := Below(n);
    order := [];
    for k := 0 to n
      invariant |order| == k && |used| == n && |unused| == n - k
      invariant forall i: nat :: i in unused <==> i < n && !used[i]
      invariant forall i | 0 <= i < n :: used[i] <==> i in order
      invariant forall i | 0 <= i < k :: order[i] < n
      invariant forall i, j | 0 <= i < j < k :: order[i] != order[j] && JoinedBefore(order[i], order[j], counts)
      invariant forall i, j | 0 <= i < k && 0 <= j < n && !used[j] :: JoinedBefore(order[i], j, counts)
    {
      assert exists i :: 0 <= i < n && !used[i] by {
        assert unused != {};
        var i: nat :| i in unused;
      }
      var min := FewestRows(counts, used);
      used := used[min := true];
      order := order + [min];
      unused := unused - {min};
    }
    assert unused == {};
    forall x | 0 <= x < n ensures x in order { assert x !in unused; }
  }

  /** The order of the statement. */
  method StatementOrder(n: nat) returns (order: seq<nat>)
    ensures IsOrder(order, n) && forall i | 0 <= i < n :: order[i] == i
  {
    order := [];
    for i := 0 to n
      invariant |order| == i && forall j | 0 <= j < i :: order[j] == j
    {
      order := order + [i];
    }
    forall x | 0 <= x < n ensures x in order { assert order[x] == x; }
  }

  function MinOf(counts: seq<int>, n: nat): int
    requires 0 < n <= |counts|
  {
    if n == 1 then counts[0] else
      var m := MinOf(counts, n - 1); if counts[n - 1] < m then counts[n - 1] else m
  }

  function MaxOf(counts: seq<int>, n: nat): int
    requires 0 < n <= |counts|
  {
    if n == 1 then counts[0] else
      var m := MaxOf(counts, n - 1); if counts[n - 1] > m then counts[n - 1] else m
  }

  /** When the greedy order is used: for more than two tables; for two if there is a join condition between tables, or
      there are no join conditions at all and the row counts differ by more than a factor of ten. */
  predicate UseGreedy(counts: seq<int>, columnConds: nat, allConds: nat)
    requires counts != []
  {
    |counts| > 2 || (if allConds > 0 then columnConds > 0 else MaxOf(counts, |counts|) > MinOf(counts, |counts|) * 10)
  }

  /** For two tables, said of their row counts. */
  lemma TwoTables(counts: seq<int>, columnConds: nat, allConds: nat)
    requires |counts| == 2
    ensures UseGreedy(counts, columnConds, allConds) <==>
      if allConds > 0 then columnConds > 0 else counts[0] > 10 * counts[1] || counts[1] > 10 * counts[0]
  {
    assert MinOf(counts, 1) == MaxOf(counts, 1) == counts[0];
  }

  /** The order in which the tables are joined. */
  method ChooseOrder(counts: seq<int>, columnConds: nat, allConds: nat) returns (order: seq<nat>)
    requires |counts| >= 2
    ensures IsOrder(order, |counts|)
    ensures |counts| > 2 || (allConds > 0 && columnConds > 0) ==> Ascending(order, counts)
    ensures |counts| == 2 && allConds > 0 && columnConds == 0 ==> order == [0, 1]
    ensures |counts| == 2 && allConds == 0 ==>
      if counts[0] > 10 * counts[1] || counts[1] > 10 * counts[0] then Ascending(order, counts) else order == [0, 1]
    ensures UseGreedy(counts, columnConds, allConds) ==> Ascending(order, counts)
    ensures !UseGreedy(counts, columnConds, allConds) ==> forall i | 0 <= i < |counts| :: order[i] == i
  {
    if |counts| == 2 { TwoTables(counts, columnConds, allConds); }
    if UseGreedy(counts, columnConds, allConds) {
      order := GreedyOrder(counts);
    } else {
      order := StatementOrder(|counts|);
    }
  }
}
