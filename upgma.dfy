/** upgma of src/bisectingKmeans.c: agglomerative guide tree over a square
    distance matrix that is rewritten in place. `as[i]` is non-zero while
    row i is an active cluster; each round joins the first minimal active
    pair, averages the two rows into the first one and retires the second. */
module Upgma {
  import opened Numbers
  import opened GuideTree

  // ---------------------------------------------------------------------
  // Trees built by upgma

  /** Every node has no child or two children. */
  predicate Full(t: Tree)
  {
    t != Nil &&
    (t.left == Nil <==> t.right == Nil) &&
    (t.left != Nil ==> Full(t.left) && Full(t.right))
  }

  /** The ids of the leaves, left to right. */
  function LeafIds(t: Tree): seq<int>
  {
    match t
    case Nil => []
    case Tree(l, r, _, id) => if l == Nil && r == Nil then [id] else LeafIds(l) + LeafIds(r)
  }

  /** The number of internal nodes, one per merge. */
  function Joins(t: Tree): nat
  {
    match t
    case Nil => 0
    case Tree(l, r, _, _) => if l == Nil && r == Nil then 0 else 1 + Joins(l) + Joins(r)
  }

  /** A tree with two children for each internal node has one leaf more
      than it has internal nodes. */
  lemma {:induction false} FullJoins(t: Tree)
    requires Full(t)
    ensures Joins(t) + 1 == |LeafIds(t)|
  {
    if t.left != Nil {
      FullJoins(t.left);
      FullJoins(t.right);
    }
  }

  /** The leaves upgma starts from: alloc_node with id samples[i]. */
  function Leaves(samples: seq<int>): (f: seq<Tree>)
    ensures |f| == |samples|
  {
    seq(|samples|, i requires 0 <= i < |samples| => Tree(Nil, Nil, [], samples[i]))
  }

  // ---------------------------------------------------------------------
  // The forest of active clusters

  /** The leaf ids of slot k when it is active. */
  function SlotIds(f: seq<Tree>, act: seq<int>, k: int): multiset<int>
    requires |f| == |act| && 0 <= k < |act|
  {
    if act[k] != 0 then multiset(LeafIds(f[k])) else multiset{}
  }

  /** The union of a sequence of bags. */
  function Union(ms: seq<multiset<int>>): multiset<int>
  {
    if |ms| == 0 then multiset{} else Union(ms[..|ms| - 1]) + ms[|ms| - 1]
  }

  /** Replacing one bag changes the union by that bag alone. */
  lemma {:induction false} UnionUpdate(ms: seq<multiset<int>>, k: int, m: multiset<int>)
    requires 0 <= k < |ms|
    ensures Union(ms[k := m]) + ms[k] == Union(ms) + m
    decreases |ms|
  {
    var n := |ms| - 1;
    var ms' := ms[k := m];
    assert Union(ms) == Union(ms[..n]) + ms[n];
    assert Union(ms') == Union(ms'[..n]) + ms'[n];
    if k == n {
      assert ms'[..n] == ms[..n];
    } else {
      assert ms'[..n] == ms[..n][k := m] && ms'[n] == ms[n];
      UnionUpdate(ms[..n], k, m);
      var front, front' := Union(ms[..n]), Union(ms'[..n]);
      calc {
        Union(ms') + ms[k];
        (front' + ms[n]) + ms[k];
        (front' + ms[k]) + ms[n];
        (front + m) + ms[n];
        (front + ms[n]) + m;
        Union(ms) + m;
      }
    }
  }

  /** A union in which every bag but the k-th is empty. */
  lemma {:induction false} UnionSingle(ms: seq<multiset<int>>, k: int)
    requires 0 <= k < |ms| && forall i :: 0 <= i < |ms| && i != k ==> ms[i] == multiset{}
    ensures Union(ms) == ms[k]
    decreases |ms|
  {
    var n := |ms| - 1;
    if k == n {
      UnionEmpty(ms[..n]);
    } else {
      UnionSingle(ms[..n], k);
    }
  }

  lemma {:induction false} UnionEmpty(ms: seq<multiset<int>>)
    requires forall i :: 0 <= i < |ms| ==> ms[i] == multiset{}
    ensures Union(ms) == multiset{}
  {
    if |ms| > 0 {
      UnionEmpty(ms[..|ms| - 1]);
    }
  }

  /** The union of singletons is the multiset of their elements. */
  lemma {:induction false} UnionSingletons(ms: seq<multiset<int>>, s: seq<int>)
    requires |ms| == |s| && forall i :: 0 <= i < |s| ==> ms[i] == multiset{s[i]}
    ensures Union(ms) == multiset(s)
  {
    var n := |s| - 1;
    if |s| > 0 {
      UnionSingletons(ms[..n], s[..n]);
      assert s == s[..n] + [s[n]];
    }
  }

  /** The bag of leaf ids of each slot. */
  function Slots(f: seq<Tree>, act: seq<int>): (ms: seq<multiset<int>>)
    requires |f| == |act|
    ensures |ms| == |f| && forall i :: 0 <= i < |f| ==> ms[i] == SlotIds(f, act, i)
  {
    seq(|f|, i requires 0 <= i < |f| => SlotIds(f, act, i))
  }

  /** The leaf ids of all active slots. */
  function ForestIds(f: seq<Tree>, act: seq<int>): multiset<int>
    requires |f| == |act|
  {
    Union(Slots(f, act))
  }

  /** With a single active slot the forest's ids are that slot's. */
  lemma IdsSingle(f: seq<Tree>, act: seq<int>, k: int)
    requires |f| == |act| && 0 <= k < |act| && act[k] != 0
    requires forall i :: 0 <= i < |act| && i != k ==> act[i] == 0
    ensures ForestIds(f, act) == multiset(LeafIds(f[k]))
  {
    UnionSingle(Slots(f, act), k);
  }

  /** With every slot active, the initial leaves carry exactly the samples. */
  lemma IdsOfLeaves(samples: seq<int>, act: seq<int>)
    requires |act| == |samples| && forall i :: 0 <= i < |act| ==> act[i] != 0
    ensures ForestIds(Leaves(samples), act) == multiset(samples)
  {
    UnionSingletons(Slots(Leaves(samples), act), samples);
  }

  /** One merge: slot a takes the join of slots a and b, slot b retires.
      The leaf ids of the active forest do not change. */
  lemma MergeKeepsIds(f: seq<Tree>, act: seq<int>, a: int, b: int, c: int)
    requires |f| == |act| && 0 <= a < |act| && 0 <= b < |act| && a != b
    requires act[a] != 0 && act[b] != 0 && c != 0 && f[a] != Nil && f[b] != Nil
    ensures ForestIds(f[a := Tree(f[a], f[b], [], -1)][b := Nil], act[a := c][b := 0]) == ForestIds(f, act)
  {
    var ms := Slots(f, act);
    var ida, idb := multiset(LeafIds(f[a])), multiset(LeafIds(f[b]));
    assert ms[a] == ida && ms[b] == idb;
    var ms1 := ms[a := ida + idb];
    var ms2 := ms1[b := multiset{}];
    assert Slots(f[a := Tree(f[a], f[b], [], -1)][b := Nil], act[a := c][b := 0]) == ms2;
    UnionUpdate(ms, a, ida + idb);
    UnionUpdate(ms1, b, multiset{});
    Cancel(Union(ms2), Union(ms1), Union(ms), ida, idb);
  }

  lemma Cancel(x: multiset<int>, y: multiset<int>, u: multiset<int>, p: multiset<int>, q: multiset<int>)
    requires x + q == y && y + p == u + p + q
    ensures x == u
  {
    forall o
      ensures x[o] == u[o]
    {
      assert (x + q)[o] == y[o] && (y + p)[o] == (u + p + q)[o];
    }
  }

  /** The number of active clusters among the first k entries of `as`. */
  function CountTo(act: seq<int>, k: nat): nat
    requires k <= |act|
  {
    if k == 0 then 0 else CountTo(act, k - 1) + if act[k - 1] != 0 then 1 else 0
  }

  /** The number of active clusters: non-zero entries of `as`. */
  function ActiveCount(act: seq<int>): nat
  {
    CountTo(act, |act|)
  }

  /** At the start every index is active. */
  lemma {:induction false} CountAll(act: seq<int>, k: nat)
    requires k <= |act| && forall i :: 0 <= i < |act| ==> act[i] != 0
    ensures CountTo(act, k) == k
  {
    if k > 0 {
      CountAll(act, k - 1);
    }
  }

  /** Setting one entry changes the count by that entry alone. */
  lemma {:induction false} CountUpdate(act: seq<int>, i: int, c: int, k: nat)
    requires 0 <= i < |act| && k <= |act|
    ensures CountTo(act[i := c], k) + (if i < k && act[i] != 0 then 1 else 0)
         == CountTo(act, k) + (if i < k && c != 0 then 1 else 0)
  {
    if k > 0 {
      CountUpdate(act, i, c, k - 1);
    }
  }

  /** No active entry when the count is zero. */
  lemma {:induction false} CountZero(act: seq<int>, k: nat)
    requires k <= |act| && CountTo(act, k) == 0
    ensures forall i :: 0 <= i < k ==> act[i] == 0
  {
    if k > 0 {
      CountZero(act, k - 1);
    }
  }

  /** A positive count has an active entry. */
  lemma {:induction false} OneActive(act: seq<int>, k: nat) returns (i: int)
    requires k <= |act| && CountTo(act, k) >= 1
    ensures 0 <= i < k && act[i] != 0
  {
    if act[k - 1] != 0 {
      i := k - 1;
    } else {
      i := OneActive(act, k - 1);
    }
  }

  /** Two active entries when the count is at least two. */
  lemma TwoActive(act: seq<int>) returns (i: int, j: int)
    requires ActiveCount(act) >= 2
    ensures ActivePair(act, i, j)
  {
    var x := OneActive(act, |act|);
    CountUpdate(act, x, 0, |act|);
    var y := OneActive(act[x := 0], |act|);
    i, j := if x < y then x else y, if x < y then y else x;
  }

  /** With a count of one, the active entry is the only one. */
  lemma OnlyActive(act: seq<int>, k: int)
    requires ActiveCount(act) == 1 && 0 <= k < |act| && act[k] != 0
    ensures forall i :: 0 <= i < |act| && i != k ==> act[i] == 0
  {
    CountUpdate(act, k, 0, |act|);
    CountZero(act[k := 0], |act|);
    forall i | 0 <= i < |act| && i != k
      ensures act[i] == 0
    {
      assert act[k := 0][i] == act[i];
    }
  }

  /** One merge retires one cluster. */
  lemma CountMerge(act: seq<int>, a: int, b: int, c: int)
    requires 0 <= a < |act| && 0 <= b < |act| && a != b && act[a] != 0 && act[b] != 0 && c != 0
    ensures ActiveCount(act[a := c][b := 0]) + 1 == ActiveCount(act)
  {
    CountUpdate(act, a, c, |act|);
    CountUpdate(act[a := c], b, 0, |act|);
  }

  /** The state of upgma's arrays with `live` clusters left: `as` is
      non-zero exactly at the occupied slots of the tree array, every
      occupied slot holds a full binary tree, and the leaves of the occupied
      slots carry each sample id once. */
  ghost predicate Forest(f: seq<Tree>, act: seq<int>, samples: seq<int>, live: int)
  {
    |f| == |act| == |samples| && ActiveCount(act) == live &&
    (forall k :: 0 <= k < |act| ==> (act[k] != 0 <==> f[k] != Nil)) &&
    (forall k :: 0 <= k < |act| ==> f[k] == Nil || Full(f[k])) &&
    ForestIds(f, act) == multiset(samples)
  }

  /** At the start every sequence is its own cluster. */
  lemma ForestOfLeaves(samples: seq<int>, act: seq<int>)
    requires |act| == |samples| && forall i :: 0 <= i < |act| ==> act[i] == i + 1
    ensures Forest(Leaves(samples), act, samples, |samples|)
  {
    CountAll(act, |act|);
    IdsOfLeaves(samples, act);
  }

  /** One merge of two active slots keeps the forest and leaves one cluster
      fewer. */
  lemma MergeKeepsForest(f: seq<Tree>, act: seq<int>, samples: seq<int>, live: int, a: int, b: int, c: int)
    requires Forest(f, act, samples, live) && ActivePair(act, a, b) && c != 0
    ensures Forest(f[a := Tree(f[a], f[b], [], -1)][b := Nil], act[a := c][b := 0], samples, live - 1)
  {
    var f', act' := f[a := Tree(f[a], f[b], [], -1)][b := Nil], act[a := c][b := 0];
    MergeKeepsIds(f, act, a, b, c);
    CountMerge(act, a, b, c);
    forall k | 0 <= k < |act'|
      ensures (act'[k] != 0 <==> f'[k] != Nil) && (f'[k] == Nil || Full(f'[k]))
    {
      if k != a && k != b {
        assert act'[k] == act[k] && f'[k] == f[k];
      }
    }
  }

  /** The one remaining cluster holds every sample id. */
  lemma LastCluster(f: seq<Tree>, act: seq<int>, samples: seq<int>, k: int)
    requires Forest(f, act, samples, 1) && 0 <= k < |act| && act[k] != 0
    ensures Full(f[k]) && multiset(LeafIds(f[k])) == multiset(samples)
  {
    OnlyActive(act, k);
    IdsSingle(f, act, k);
  }

  // ---------------------------------------------------------------------
  // The pair search

  /** (i, j) is scanned before (a, b): rows outer, columns inner. */
  predicate Before(i: int, j: int, a: int, b: int)
  {
    i < a || (i == a && j < b)
  }

  /** Both ends of the pair i < j are active clusters. */
  predicate ActivePair(act: seq<int>, i: int, j: int)
  {
    0 <= i < j < |act| && act[i] != 0 && act[j] != 0
  }

  /** (a, b) is the first pair that a strict `<` scan from FLT_MAX keeps:
      no active pair is closer, and every active pair scanned before it is
      strictly farther. */
  ghost predicate IsFirstMinimum(m: seq<seq<real>>, act: seq<int>, a: int, b: int)
    requires Square(m) && |m| == |act|
  {
    ActivePair(act, a, b) &&
    forall i, j :: ActivePair(act, i, j) ==>
      m[a][b] <= m[i][j] && (Before(i, j, a, b) ==> m[a][b] < m[i][j])
  }

  /** The scan has kept (a, b) from the active pairs before (i, j), or has
      seen none and still holds FLT_MAX. */
  ghost predicate BestSoFar(m: seq<seq<real>>, act: seq<int>, a: int, b: int, max: Float, i: int, j: int)
    requires Square(m) && |m| == |act|
  {
    (max == FltMax ==> forall i', j' :: ActivePair(act, i', j') ==> !Before(i', j', i, j)) &&
    (max != FltMax ==>
      ActivePair(act, a, b) && max == Num(m[a][b]) && Before(a, b, i, j) &&
      forall i', j' :: ActivePair(act, i', j') && Before(i', j', i, j) ==>
        m[a][b] <= m[i'][j'] && (Before(i', j', a, b) ==> m[a][b] < m[i'][j']))
  }

  /** Only one pair is the first minimum. */
  lemma FirstMinimumUnique(m: seq<seq<real>>, act: seq<int>, a: int, b: int, a': int, b': int)
    requires Square(m) && |m| == |act|
    requires IsFirstMinimum(m, act, a, b) && IsFirstMinimum(m, act, a', b')
    ensures a == a' && b == b'
  {
    assert m[a][b] <= m[a'][b'] && m[a'][b'] <= m[a][b];
  }

  /** Pair p comes before pair q in the order the scan settles ties in: a
      smaller distance first, and among equal distances the earlier one. */
  predicate Precedes(m: seq<seq<real>>, p: (int, int), q: (int, int))
  {
    0 <= p.0 < |m| && 0 <= p.1 < |m[p.0]| && 0 <= q.0 < |m| && 0 <= q.1 < |m[q.0]| &&
    (m[p.0][p.1] < m[q.0][q.1] || (m[p.0][p.1] == m[q.0][q.1] && Before(p.0, p.1, q.0, q.1)))
  }

  /** A non-empty set of active pairs has a first element in that order. */
  lemma {:induction false} EarliestOf(m: seq<seq<real>>, act: seq<int>, ps: set<(int, int)>) returns (p: (int, int))
    requires Square(m) && |m| == |act| && ps != {}
    requires forall q :: q in ps ==> ActivePair(act, q.0, q.1)
    ensures p in ps && forall q :: q in ps && q != p ==> Precedes(m, p, q)
    decreases ps
  {
    var x :| x in ps;
    if ps == {x} {
      p := x;
    } else {
      var y := EarliestOf(m, act, ps - {x});
      p := if Precedes(m, x, y) then x else y;
      forall q | q in ps && q != p
        ensures Precedes(m, p, q)
      {
        if q != x && q != y {
          assert Precedes(m, y, q);
        }
      }
    }
  }

  /** With two active clusters the first minimum exists. */
  lemma FirstMinimumExists(m: seq<seq<real>>, act: seq<int>)
    requires Square(m) && |m| == |act| && ActiveCount(act) >= 2
    ensures exists a, b :: IsFirstMinimum(m, act, a, b)
  {
    var x, y := TwoActive(act);
    var ps := set i, j | 0 <= i < j < |act| && act[i] != 0 && act[j] != 0 :: (i, j);
    assert (x, y) in ps;
    var p := EarliestOf(m, act, ps);
    forall i, j | ActivePair(act, i, j)
      ensures m[p.0][p.1] <= m[i][j] && (Before(i, j, p.0, p.1) ==> m[p.0][p.1] < m[i][j])
    {
      assert (i, j) in ps;
    }
    assert IsFirstMinimum(m, act, p.0, p.1);
  }

  /** The closest-pair search of upgma's main loop. */
  method FindClosestPair(dm: array2<real>, act: array<int>) returns (a: int, b: int)
    requires dm.Length0 == act.Length && dm.Length1 == act.Length
    requires exists i, j :: ActivePair(act[..], i, j)
    ensures IsFirstMinimum(Cells(dm), act[..], a, b)
  {
    ghost var m := Cells(dm);
    var n := act.Length;
    var max: Float := FltMax;
    a, b := 0, 0;
    var i := 0;
    while i < n - 1
      invariant 0 <= i <= n - 1
      invariant BestSoFar(m, act[..], a, b, max, i, 0)
    {
      if act[i] != 0 {
        var j := i + 1;
        while j < n
          invariant i + 1 <= j <= n
          invariant BestSoFar(m, act[..], a, b, max, i, j)
        {
          if act[j] != 0 {
            if Less(Num(dm[i, j]), max) {
              max := Num(dm[i, j]);
              a, b := i, j;
            }
          }
          j := j + 1;
        }
      }
      i := i + 1;
    }
  }

  // ---------------------------------------------------------------------
  // The distance update

  predicate Square(m: seq<seq<real>>)
  {
    forall i :: 0 <= i < |m| ==> |m[i]| == |m|
  }

  predicate Symmetric(m: seq<seq<real>>)
    requires Square(m)
  {
    forall i, j :: 0 <= i < |m| && 0 <= j < |m| ==> m[i][j] == m[j][i]
  }

  /** dm[i][j] == dm[j][i] for every cell. */
  ghost predicate SymmetricArray(dm: array2<real>)
    reads dm
  {
    forall i, j :: 0 <= i < dm.Length0 && 0 <= j < dm.Length0 && j < dm.Length1 && i < dm.Length1 ==> dm[i, j] == dm[j, i]
  }

  /** The matrix as values. */
  ghost function Cells(dm: array2<real>): (m: seq<seq<real>>)
    reads dm
    ensures |m| == dm.Length0 && (dm.Length0 == dm.Length1 ==> Square(m))
    ensures forall i, j :: 0 <= i < |m| && 0 <= j < dm.Length1 ==> |m[i]| == dm.Length1 && m[i][j] == dm[i, j]
  {
    seq(dm.Length0, i requires 0 <= i < dm.Length0 reads dm =>
      seq(dm.Length1, j requires 0 <= j < dm.Length1 reads dm => dm[i, j]))
  }

  /** Row a after the merge of b into a: the mean of the two rows, except
      at column b, which keeps the old distance, and a zero diagonal. */
  function MergedRow(m: seq<seq<real>>, a: int, b: int, j: int): real
    requires Square(m) && 0 <= a < |m| && 0 <= b < |m| && 0 <= j < |m|
  {
    if j == a then 0.0 else if j == b then m[a][b] else (m[a][j] + m[b][j]) * 0.5
  }

  /** The matrix after the merge: row a and column a both hold the new row,
      every other cell is unchanged. */
  function Merged(m: seq<seq<real>>, a: int, b: int): (r: seq<seq<real>>)
    requires Square(m) && 0 <= a < |m| && 0 <= b < |m|
    ensures |r| == |m| && Square(r)
  {
    seq(|m|, i requires 0 <= i < |m| =>
      seq(|m|, j requires 0 <= j < |m| =>
        if i == a then MergedRow(m, a, b, j)
        else if j == a then MergedRow(m, a, b, i)
        else m[i][j]))
  }

  /** The update keeps a symmetric matrix symmetric. */
  lemma MergedSymmetric(m: seq<seq<real>>, a: int, b: int)
    requires Square(m) && 0 <= a < |m| && 0 <= b < |m| && Symmetric(m)
    ensures Symmetric(Merged(m, a, b))
  {
  }

  /** On a symmetric matrix the merged cluster lies at the mean of the two
      old distances from every third cluster, at distance zero from itself,
      and no distance between two other clusters moves. */
  lemma MergedDistances(m: seq<seq<real>>, a: int, b: int)
    requires Square(m) && 0 <= a < |m| && 0 <= b < |m| && a != b && Symmetric(m)
    ensures var r := Merged(m, a, b);
      r[a][a] == 0.0 &&
      (forall k :: 0 <= k < |m| && k != a && k != b ==>
        r[a][k] == r[k][a] == (m[a][k] + m[k][b]) * 0.5) &&
      (forall i, j :: 0 <= i < |m| && 0 <= j < |m| && i != a && j != a ==> r[i][j] == m[i][j])
  {
  }

  /** The two update loops of upgma: row a is averaged with row b (all
      columns but b), its diagonal zeroed, and then copied into column a. */
  method AverageRows(dm: array2<real>, a: int, b: int)
    requires dm.Length0 == dm.Length1 && 0 <= a < dm.Length0 && 0 <= b < dm.Length0 && a != b
    modifies dm
    ensures Cells(dm) == Merged(old(Cells(dm)), a, b)
  {
    ghost var m := Cells(dm);
    var n := dm.Length0;
    var j := n;
    while j > 0
      invariant 0 <= j <= n
      invariant forall x, y :: 0 <= x < n && 0 <= y < n ==>
        dm[x, y] == if x == a && j <= y && y != b && y != a then MergedRow(m, a, b, y)
                    else if x == a && j <= y && y == a then (m[a][a] + m[b][a]) * 0.5
                    else m[x][y]
    {
      j := j - 1;
      if j != b {
        dm[a, j] := (dm[a, j] + dm[b, j]) * 0.5;
      }
    }
    dm[a, a] := 0.0;
    j := n;
    while j > 0
      invariant 0 <= j <= n
      invariant forall x, y :: 0 <= x < n && 0 <= y < n ==>
        dm[x, y] == if x == a then MergedRow(m, a, b, y)
                    else if y == a && j <= x then MergedRow(m, a, b, x)
                    else m[x][y]
    {
      j := j - 1;
      dm[j, a] := dm[a, j];
    }
    assert forall x :: 0 <= x < n ==> Cells(dm)[x] == Merged(m, a, b)[x];
  }

  /** The distance update seen from the merge loop: the matrix becomes
      `Merged` of the old one, and a symmetric matrix stays symmetric. */
  method UpdateDistances(dm: array2<real>, a: int, b: int)
    requires dm.Length0 == dm.Length1 && 0 <= a < dm.Length0 && 0 <= b < dm.Length0 && a != b
    modifies dm
    ensures Cells(dm) == Merged(old(Cells(dm)), a, b)
    ensures old(SymmetricArray(dm)) ==> SymmetricArray(dm)
  {
    ghost var m := Cells(dm);
    AverageRows(dm, a, b);
    if old(SymmetricArray(dm)) {
      assert Symmetric(m);
      MergedSymmetric(m, a, b);
    }
  }

  // ---------------------------------------------------------------------
  // upgma on values

  /** The state of upgma after its rounds: the distances, `as`, the tree
      array, and the slot of the last join. */
  datatype Agglomeration = Agglomeration(dist: seq<seq<real>>, active: seq<int>, forest: seq<Tree>, last: int)

  /** Slot a takes the join of slots a and b, and slot b is emptied. */
  function Join(f: seq<Tree>, a: int, b: int): (g: seq<Tree>)
    requires 0 <= a < |f| && 0 <= b < |f|
    ensures |g| == |f|
  {
    f[a := Tree(f[a], f[b], [], -1)][b := Nil]
  }

  /** The pair upgma's search settles on. */
  ghost function Closest(m: seq<seq<real>>, act: seq<int>): (p: (int, int))
    requires Square(m) && |m| == |act| && ActiveCount(act) >= 2
    ensures IsFirstMinimum(m, act, p.0, p.1)
  {
    FirstMinimumExists(m, act);
    var a, b :| IsFirstMinimum(m, act, a, b);
    (a, b)
  }

  /** k more rounds of upgma from the given state, with cnode the next
      node number: each round joins the first minimal active pair (a, b)
      into slot a, marks a with cnode + 1, retires b and averages the
      distances. */
  ghost function Rounds(m: seq<seq<real>>, act: seq<int>, f: seq<Tree>, cnode: int, last: int, k: nat): (r: Agglomeration)
    requires Square(m) && |m| == |act| == |f| && cnode >= 0 && ActiveCount(act) >= k + 1
    ensures |r.dist| == |m| && Square(r.dist) && |r.active| == |act| && |r.forest| == |f|
    ensures 0 <= last < |f| ==> 0 <= r.last < |f|
    decreases k
  {
    if k == 0 then Agglomeration(m, act, f, last)
    else
      var (a, b) := Closest(m, act);
      CountMerge(act, a, b, cnode + 1);
      Rounds(Merged(m, a, b), act[a := cnode + 1][b := 0], Join(f, a, b), cnode + 1, a, k - 1)
  }

  /** `as` as upgma initialises it. */
  function Numbered(n: nat): (act: seq<int>)
    ensures |act| == n && forall i :: 0 <= i < n ==> act[i] == i + 1
  {
    seq(n, i requires 0 <= i < n => i + 1)
  }

  /** upgma on values: numseq - 1 rounds from one leaf per sample. The
      result's tree is the one in the slot of the last join. */
  ghost function UpgmaRun(m: seq<seq<real>>, samples: seq<int>): (r: Agglomeration)
    requires Square(m) && |m| == |samples| >= 1
    ensures |r.dist| == |m| && 0 <= r.last < |r.forest| == |samples|
  {
    CountAll(Numbered(|samples|), |samples|);
    Rounds(m, Numbered(|samples|), Leaves(samples), |samples|, 0, |samples| - 1)
  }

  /** One round taken apart: the round on the first minimal pair (a, b)
      followed by the rest. */
  lemma RoundStep(m: seq<seq<real>>, act: seq<int>, f: seq<Tree>, cnode: int, last: int, k: nat, a: int, b: int,
                  next: int, k': nat)
    requires Square(m) && |m| == |act| == |f| && cnode >= 0 && ActiveCount(act) >= k + 1 && k >= 1
    requires IsFirstMinimum(m, act, a, b) && next == cnode + 1 && k' == k - 1
    ensures ActiveCount(act[a := next][b := 0]) >= k
    ensures Rounds(m, act, f, cnode, last, k)
         == Rounds(Merged(m, a, b), act[a := next][b := 0], Join(f, a, b), next, a, k')
  {
    CountMerge(act, a, b, next);
    var p := Closest(m, act);
    FirstMinimumUnique(m, act, a, b, p.0, p.1);
  }

  /** k more rounds from state g, with cnode the last node number used,
      end in goal. */
  ghost predicate Leads(g: Agglomeration, cnode: int, k: nat, goal: Agglomeration)
  {
    Square(g.dist) && |g.dist| == |g.active| == |g.forest| && cnode >= 0 && ActiveCount(g.active) >= k + 1 &&
    Rounds(g.dist, g.active, g.forest, cnode, g.last, k) == goal
  }

  /** Taking the round on the first minimal pair (a, b) leaves one round
      fewer to the same end. */
  lemma LeadsStep(g: Agglomeration, cnode: int, k: nat, goal: Agglomeration, a: int, b: int, next: int, k': nat)
    requires Leads(g, cnode, k, goal) && k >= 1 && IsFirstMinimum(g.dist, g.active, a, b)
    requires next == cnode + 1 && k' == k - 1
    ensures Leads(Agglomeration(Merged(g.dist, a, b), g.active[a := next][b := 0], Join(g.forest, a, b), a),
                  next, k', goal)
  {
    RoundStep(g.dist, g.active, g.forest, cnode, g.last, k, a, b, next, k');
  }

  /** With no round left the state is the end. */
  lemma LeadsNowhere(g: Agglomeration, cnode: int, k: nat, goal: Agglomeration)
    requires Leads(g, cnode, k, goal) && k == 0
    ensures g == goal
  {
  }

  /** One cluster is left, and it sits in the slot of the last join. */
  ghost predicate Settled(g: Agglomeration, samples: seq<int>)
  {
    Forest(g.forest, g.active, samples, 1) && 0 <= g.last < |g.active| && g.active[g.last] != 0
  }

  /** The rounds keep the forest invariant; the last join's slot is the
      one active cluster at the end. */
  lemma {:induction false} RoundsKeepForest(m: seq<seq<real>>, act: seq<int>, f: seq<Tree>, samples: seq<int>,
                                            cnode: int, last: int, k: nat)
    requires Square(m) && |m| == |act| && cnode >= 0
    requires Forest(f, act, samples, k + 1) && 0 <= last < |act| && act[last] != 0
    ensures Settled(Rounds(m, act, f, cnode, last, k), samples)
    decreases k
  {
    if k > 0 {
      var (a, b) := Closest(m, act);
      MergeKeepsForest(f, act, samples, k + 1, a, b, cnode + 1);
      RoundsKeepForest(Merged(m, a, b), act[a := cnode + 1][b := 0], Join(f, a, b), samples, cnode + 1, a, k - 1);
    }
  }

  /** upgma's tree is a full binary tree over the samples, with numseq - 1
      joins. */
  lemma UpgmaTreeSpans(m: seq<seq<real>>, samples: seq<int>)
    requires Square(m) && |m| == |samples| >= 1
    ensures var r := UpgmaRun(m, samples);
      Full(r.forest[r.last]) && multiset(LeafIds(r.forest[r.last])) == multiset(samples) &&
      Joins(r.forest[r.last]) == |samples| - 1
  {
    var n := |samples|;
    ForestOfLeaves(samples, Numbered(n));
    RoundsKeepForest(m, Numbered(n), Leaves(samples), samples, n, 0, n - 1);
    var r := UpgmaRun(m, samples);
    LastCluster(r.forest, r.active, samples, r.last);
    FullJoins(r.forest[r.last]);
    assert |LeafIds(r.forest[r.last])| == |multiset(samples)|;
  }

  /** Four points A, B, C, D with AB = 1, CD = 2 and every other distance
      4. */
  function FourPoints(): (m: seq<seq<real>>)
    ensures Square(m) && |m| == 4
  {
    [[0.0, 1.0, 4.0, 4.0],
     [1.0, 0.0, 4.0, 4.0],
     [4.0, 4.0, 0.0, 2.0],
     [4.0, 4.0, 2.0, 0.0]]
  }

  /** Every pair of slots of four. */
  lemma SlotsOfFour(i: int, j: int)
    requires 0 <= i < j < 4
    ensures (i, j) in {(0, 1), (0, 2), (0, 3), (1, 2), (1, 3), (2, 3)}
  {
  }

  /** A merge whose averages land where the distances already were leaves
      a symmetric matrix as it was. */
  lemma MergedStays(m: seq<seq<real>>, a: int, b: int)
    requires Square(m) && Symmetric(m) && 0 <= a < |m| && 0 <= b < |m| && m[a][a] == 0.0
    requires forall j :: 0 <= j < |m| && j != a && j != b ==> (m[a][j] + m[b][j]) * 0.5 == m[a][j]
    ensures Merged(m, a, b) == m
  {
    forall i | 0 <= i < |m|
      ensures Merged(m, a, b)[i] == m[i]
    {
      assert forall j :: 0 <= j < |m| ==> Merged(m, a, b)[i][j] == m[i][j];
    }
  }

  /** Joining A with B, or C with D, leaves the four points' distances as
      they were. */
  lemma FourPointsStay()
    ensures Merged(FourPoints(), 0, 1) == FourPoints() && Merged(FourPoints(), 2, 3) == FourPoints()
  {
    var m := FourPoints();
    assert Symmetric(m) by {
      forall i, j | 0 <= i < 4 && 0 <= j < 4 ensures m[i][j] == m[j][i] {
        assert i in {0, 1, 2, 3} && j in {0, 1, 2, 3};
      }
    }
    forall j | 0 <= j < 4
      ensures j != 0 && j != 1 ==> (m[0][j] + m[1][j]) * 0.5 == m[0][j]
      ensures j != 2 && j != 3 ==> (m[2][j] + m[3][j]) * 0.5 == m[2][j]
    {
      assert j in {0, 1, 2, 3};
    }
    MergedStays(m, 0, 1);
    MergedStays(m, 2, 3);
  }

  /** The pairs upgma settles on in the three rounds over the four points. */
  lemma FourPointsMinima()
    ensures IsFirstMinimum(FourPoints(), [1, 2, 3, 4], 0, 1)
    ensures IsFirstMinimum(FourPoints(), [5, 0, 3, 4], 2, 3)
    ensures IsFirstMinimum(FourPoints(), [5, 0, 6, 0], 0, 2)
  {
    var m := FourPoints();
    forall i, j | 0 <= i < j < 4
      ensures m[0][1] <= m[i][j] && (Before(i, j, 0, 1) ==> m[0][1] < m[i][j])
      ensures [5, 0, 3, 4][i] != 0 && [5, 0, 3, 4][j] != 0 ==>
        m[2][3] <= m[i][j] && (Before(i, j, 2, 3) ==> m[2][3] < m[i][j])
    {
      SlotsOfFour(i, j);
    }
  }

  /** Round one over the four points joins A with B. */
  lemma FourPointsFirst(f: seq<Tree>)
    requires |f| == 4
    ensures Rounds(FourPoints(), [1, 2, 3, 4], f, 4, 0, 3) == Rounds(FourPoints(), [5, 0, 3, 4], Join(f, 0, 1), 5, 0, 2)
  {
    assert [1, 2, 3, 4][0 := 5][1 := 0] == [5, 0, 3, 4];
    CountAll([1, 2, 3, 4], 4);
    FourPointsMinima();
    FourPointsStay();
    RoundStep(FourPoints(), [1, 2, 3, 4], f, 4, 0, 3, 0, 1, 5, 2);
  }

  /** Round two joins C with D. */
  lemma FourPointsSecond(f: seq<Tree>)
    requires |f| == 4
    ensures Rounds(FourPoints(), [5, 0, 3, 4], f, 5, 0, 2) == Rounds(FourPoints(), [5, 0, 6, 0], Join(f, 2, 3), 6, 2, 1)
  {
    assert [5, 0, 3, 4][2 := 6][3 := 0] == [5, 0, 6, 0];
    FourPointsMinima();
    FourPointsStay();
    RoundStep(FourPoints(), [5, 0, 3, 4], f, 5, 0, 2, 2, 3, 6, 1);
  }

  /** Round three joins the two pairs, and no round is left. */
  lemma FourPointsThird(f: seq<Tree>)
    requires |f| == 4
    ensures Rounds(FourPoints(), [5, 0, 6, 0], f, 6, 2, 1).last == 0
    ensures Rounds(FourPoints(), [5, 0, 6, 0], f, 6, 2, 1).forest == Join(f, 0, 2)
  {
    FourPointsMinima();
    RoundStep(FourPoints(), [5, 0, 6, 0], f, 6, 2, 1, 0, 2, 7, 0);
  }

  /** On the four points upgma joins A with B, then C with D, then the two
      pairs: the tree is ((A, B), (C, D)). */
  lemma FourPointsTree()
    ensures var r := UpgmaRun(FourPoints(), [0, 1, 2, 3]);
      r.last == 0 &&
      r.forest[0] == Tree(Tree(Tree(Nil, Nil, [], 0), Tree(Nil, Nil, [], 1), [], -1),
                          Tree(Tree(Nil, Nil, [], 2), Tree(Nil, Nil, [], 3), [], -1), [], -1)
  {
    var f0 := Leaves([0, 1, 2, 3]);
    assert Numbered(4) == [1, 2, 3, 4];
    FourPointsFirst(f0);
    FourPointsSecond(Join(f0, 0, 1));
    FourPointsThird(Join(Join(f0, 0, 1), 2, 3));
  }

  // ---------------------------------------------------------------------
  // upgma

  /** as[i] = i + 1 for every sequence: all clusters active. */
  method InitActive(n: nat) returns (act: array<int>)
    ensures fresh(act) && act[..] == Numbered(n)
  {
    act := new int[n];
    var i := n;
    while i > 0
      invariant 0 <= i <= n
      invariant forall k :: i <= k < n ==> act[k] == k + 1
    {
      i := i - 1;
      act[i] := i + 1;
    }
  }

  /** One leaf per sequence: tree[i] is a childless node with id samples[i]. */
  method InitLeaves(samples: seq<int>) returns (tree: array<Tree>)
    ensures fresh(tree) && tree[..] == Leaves(samples)
  {
    tree := new Tree[|samples|](_ => Nil);
    var i := 0;
    while i < |samples|
      invariant 0 <= i <= |samples| && tree.Length == |samples|
      invariant forall k :: 0 <= k < i ==> tree[k] == Tree(Nil, Nil, [], samples[k])
    {
      tree[i] := Tree(Nil, Nil, [], samples[i]);
      i := i + 1;
    }
  }

  /** The bookkeeping of one join: slot a takes the join of slots a and b
      and is marked with the new node number id, slot b is emptied and
      retired. */
  method JoinSlots(act: array<int>, tree: array<Tree>, a: int, b: int, id: int)
    requires act.Length == tree.Length && 0 <= a < act.Length && 0 <= b < act.Length
    modifies act, tree
    ensures act[..] == old(act[..])[a := id][b := 0]
    ensures tree[..] == Join(old(tree[..]), a, b)
  {
    ghost var f, s := tree[..], act[..];
    tree[a] := Tree(tree[a], tree[b], [], -1);
    tree[b] := Nil;
    act[a] := id;
    act[b] := 0;
    assert tree[..] == Join(f, a, b);
    assert act[..] == s[a := id][b := 0];
  }

  /** One round of upgma's main loop: the closest active pair (a, b) is
      joined into slot a, which `as` marks with the new node number id
      (cnode + 1); slot b is emptied and retired; the distances of a become
      the averages. */
  method Round(dm: array2<real>, act: array<int>, tree: array<Tree>, id: int) returns (a: int, b: int)
    requires act.Length == tree.Length && dm.Length0 == act.Length && dm.Length1 == act.Length
    requires ActiveCount(act[..]) >= 2
    modifies dm, act, tree
    ensures old(IsFirstMinimum(Cells(dm), act[..], a, b))
    ensures act[..] == old(act[..])[a := id][b := 0]
    ensures tree[..] == Join(old(tree[..]), a, b)
    ensures Cells(dm) == Merged(old(Cells(dm)), a, b)
    ensures old(SymmetricArray(dm)) ==> SymmetricArray(dm)
  {
    ghost var x, y := TwoActive(act[..]);
    a, b := FindClosestPair(dm, act);
    JoinSlots(act, tree, a, b, id);
    UpdateDistances(dm, a, b);
  }

  /** The merge rounds of upgma, until cnode reaches 2 * numseq - 1: the
      arrays end as numseq - 1 rounds on values leave them, and the root is
      the tree in the slot of the last join. */
  method MergeLoop(dm: array2<real>, act: array<int>, tree: array<Tree>, samples: seq<int>) returns (root: Tree)
    requires 1 <= |samples| && act.Length == |samples| && tree.Length == |samples|
    requires dm.Length0 == |samples| && dm.Length1 == |samples| && ActiveCount(act[..]) == |samples|
    modifies dm, act, tree
    ensures var r := Rounds(old(Cells(dm)), old(act[..]), old(tree[..]), |samples|, 0, |samples| - 1);
      Cells(dm) == r.dist && act[..] == r.active && tree[..] == r.forest && root == r.forest[r.last]
    ensures old(SymmetricArray(dm)) ==> SymmetricArray(dm)
  {
    var n := |samples|;
    var numprofiles := 2 * n - 1;
    var cnode := n;
    var nodeA, nodeB := 0, 0;
    ghost var sym := SymmetricArray(dm);
    ghost var rest: nat := n - 1;
    ghost var goal := Rounds(Cells(dm), act[..], tree[..], |samples|, 0, |samples| - 1);
    while cnode != numprofiles
      invariant n <= cnode <= numprofiles && 0 <= nodeA < n && rest == numprofiles - cnode
      invariant Leads(Agglomeration(Cells(dm), act[..], tree[..], nodeA), cnode, rest, goal)
      invariant sym ==> SymmetricArray(dm)
      decreases rest
    {
      ghost var g := Agglomeration(Cells(dm), act[..], tree[..], nodeA);
      ghost var left: nat := rest - 1;
      var next := cnode + 1;
      nodeA, nodeB := Round(dm, act, tree, next);
      LeadsStep(g, cnode, rest, goal, nodeA, nodeB, next, left);
      cnode, rest := next, left;
    }
    LeadsNowhere(Agglomeration(Cells(dm), act[..], tree[..], nodeA), cnode, rest, goal);
    root := tree[nodeA];
  }

  /** upgma: the tree is the one the rounds on values build from the
      matrix, and the distance matrix is left as those rounds rewrote it. */
  method Upgma(dm: array2<real>, samples: seq<int>) returns (root: Tree)
    requires 1 <= |samples| && dm.Length0 == |samples| && dm.Length1 == |samples|
    modifies dm
    ensures var r := UpgmaRun(old(Cells(dm)), samples);
      root == r.forest[r.last] && Cells(dm) == r.dist
    ensures Full(root) && multiset(LeafIds(root)) == multiset(samples)
    ensures Joins(root) == |samples| - 1
    ensures |samples| == 1 ==> root == Tree(Nil, Nil, [], samples[0])
    ensures old(SymmetricArray(dm)) ==> SymmetricArray(dm)
  {
    ghost var m := Cells(dm);
    var act := InitActive(|samples|);
    var tree := InitLeaves(samples);
    CountAll(act[..], |samples|);
    root := MergeLoop(dm, act, tree, samples);
    UpgmaTreeSpans(m, samples);
  }
}
