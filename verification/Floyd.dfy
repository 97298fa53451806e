/** All-pairs shortest paths with a next-hop table: Graph in Floyd.h, for any number of vertices and any edges. */
module Floyd {

  const INFINITE_LEN: int := 99999

  // ----- walks, the meaning of Distance -----

  /** Edge weights; a weight that is not positive, or from a vertex to itself, is no edge. */
  type Weights = seq<seq<int>>

  ghost predicate Square(g: Weights) {
    forall i {:trigger g[i]} | 0 <= i < |g| :: |g[i]| == |g|
  }

  ghost predicate Usable(g: Weights) {
    Square(g) && forall i, j | 0 <= i < |g| && 0 <= j < |g| :: g[i][j] < INFINITE_LEN
  }

  ghost predicate Edge(g: Weights, i: int, j: int)
    requires Square(g)
  {
    0 <= i < |g| && 0 <= j < |g| && i != j && g[i][j] > 0
  }

  ghost predicate Walk(g: Weights, w: seq<int>)
    requires Square(g)
  {
    w != [] && 0 <= w[0] < |g| && (|w| > 1 ==> Edge(g, w[0], w[1]) && Walk(g, w[1..]))
  }

  ghost predicate Joins(g: Weights, w: seq<int>, i: int, j: int)
    requires Square(g)
  {
    Walk(g, w) && w[0] == i && w[|w| - 1] == j
  }

  /** Total weight. */
  ghost function Len(g: Weights, w: seq<int>): (len: nat)
    requires Square(g) && Walk(g, w)
    ensures len >= |w| - 1
  {
    if |w| == 1 then 0 else g[w[0]][w[1]] + Len(g, w[1..])
  }

  /** Cutting a walk in two. */
  lemma {:induction false} LenCut(g: Weights, w: seq<int>, a: nat)
    requires Square(g) && Walk(g, w) && a < |w|
    ensures Walk(g, w[a..]) && Walk(g, w[..a + 1])
    ensures Len(g, w) == Len(g, w[..a + 1]) + Len(g, w[a..])
    decreases a
  {
    if a == 0 {
      assert w[0..] == w;
    } else {
      LenCut(g, w[1..], a - 1);
      assert w[1..][a - 1..] == w[a..];
      assert w[1..][..a] == w[..a + 1][1..];
      hide Walk;
    }
  }

  /** Two walks end to end. */
  lemma {:induction false} LenJoin(g: Weights, u: seq<int>, v: seq<int>)
    requires Square(g) && Walk(g, u) && Walk(g, v) && u[|u| - 1] == v[0]
    ensures Walk(g, u + v[1..]) && Len(g, u + v[1..]) == Len(g, u) + Len(g, v)
    decreases |u|
  {
    if |u| == 1 {
      assert u + v[1..] == v;
    } else {
      LenJoin(g, u[1..], v);
      assert (u + v[1..])[1..] == u[1..] + v[1..];
    }
  }

  /** d is the length of a shortest walk from i to j, or INFINITE_LEN when no walk is shorter than that. */
  ghost predicate IsDistance(g: Weights, i: int, j: int, d: int)
    requires Square(g)
  {
    && d <= INFINITE_LEN
    && (forall w {:trigger Joins(g, w, i, j)} :: Joins(g, w, i, j) ==> d <= Len(g, w))
    && (d < INFINITE_LEN ==> exists w :: Joins(g, w, i, j) && Len(g, w) == d)
  }

  lemma DistanceIsUnique(g: Weights, i: int, j: int, d: int, e: int)
    requires Square(g) && IsDistance(g, i, j, d) && IsDistance(g, i, j, e)
    ensures d == e
  {
  }

  // ----- what holds while vertices are being added -----

  /** d is the length of a walk from i to j whose first hop is p, or no walk is known. */
  ghost predicate Attained(g: Weights, i: int, j: int, d: int, p: int)
    requires Square(g)
  {
    if d >= INFINITE_LEN then d == INFINITE_LEN && p == -1 && i != j
    else exists w :: AttainedBy(g, i, j, d, p, w)
  }

  ghost predicate AttainedBy(g: Weights, i: int, j: int, d: int, p: int, w: seq<int>)
    requires Square(g)
  {
    Joins(g, w, i, j) && Len(g, w) == d && (i == j ==> d == 0) && (i != j ==> |w| > 1 && w[1] == p)
  }

  ghost predicate Through(w: seq<int>, k: int) {
    forall a | 0 < a < |w| - 1 :: w[a] < k
  }

  /** No walk from i to j that passes only through vertices below k is shorter than d. */
  ghost predicate Lower(g: Weights, i: int, j: int, k: int, d: int)
    requires Square(g)
  {
    forall w {:trigger Joins(g, w, i, j)} :: Joins(g, w, i, j) && Through(w, k) ==> d <= Len(g, w)
  }

  lemma AttainedAcross(g: Weights, i: int, k: int, j: int, d1: int, p1: int, d2: int, p2: int)
    requires Square(g) && Attained(g, i, k, d1, p1) && Attained(g, k, j, d2, p2)
    requires d1 + d2 < INFINITE_LEN && i != k && i != j
    ensures Attained(g, i, j, d1 + d2, p1)
  {
    var u :| AttainedBy(g, i, k, d1, p1, u);
    NotNegative(g, k, j, d2, p2);
    NotNegative(g, i, k, d1, p1);
    var v :| AttainedBy(g, k, j, d2, p2, v);
    LenJoin(g, u, v);
    assert AttainedBy(g, i, j, d1 + d2, p1, u + v[1..]);
  }

  lemma NotNegative(g: Weights, i: int, j: int, d: int, p: int)
    requires Square(g) && Attained(g, i, j, d, p)
    ensures d >= 0
  {
  }

  /** A walk through vertices up to k either avoids k or splits into one that reaches k and one that leaves it. */
  lemma LowerAcross(g: Weights, i: int, j: int, k: int, dij: int, dik: int, dkj: int, d: int)
    requires Square(g) && k >= 0
    requires Lower(g, i, j, k, dij) && Lower(g, i, k, k, dik) && Lower(g, k, j, k, dkj)
    requires d <= dij && d <= dik + dkj
    ensures Lower(g, i, j, k + 1, d)
  {
    forall w | Joins(g, w, i, j) && Through(w, k + 1) ensures d <= Len(g, w) {
      if !Through(w, k) {
        var u, v := ToAndFrom(g, w, i, j, k);
      }
    }
  }

  /** The part of a walk up to its first visit to k, and the part from its last. */
  lemma ToAndFrom(g: Weights, w: seq<int>, i: int, j: int, k: int) returns (u: seq<int>, v: seq<int>)
    requires Square(g) && Joins(g, w, i, j) && Through(w, k + 1) && !Through(w, k)
    ensures Joins(g, u, i, k) && Through(u, k) && Joins(g, v, k, j) && Through(v, k)
    ensures Len(g, u) + Len(g, v) <= Len(g, w)
  {
    var a, b := FirstAndLast(w, k);
    u, v := w[..a + 1], w[b..];
    hide Through;
    LenCut(g, w, a);
    LenCut(g, w[a..], b - a);
    assert w[a..][b - a..] == v;
  }

  lemma FirstAndLast(w: seq<int>, k: int) returns (a: int, b: int)
    requires Through(w, k + 1) && !Through(w, k)
    ensures 0 < a <= b < |w| - 1 && w[a] == w[b] == k
    ensures Through(w[..a + 1], k) && Through(w[b..], k)
  {
    a, b := 1, |w| - 2;
    while w[a] < k
      invariant 0 < a < |w| - 1 && forall c | 0 < c < a :: w[c] < k
      decreases |w| - a
    {
      a := a + 1;
    }
    while w[b] < k
      invariant a <= b < |w| - 1 && forall c | b < c < |w| - 1 :: w[c] < k
      decreases b
    {
      b := b - 1;
    }
  }

  lemma LowerStart(g: Weights, i: int, j: int, d: int)
    requires Usable(g) && 0 <= i < |g| && 0 <= j < |g|
    requires d == if i == j then 0 else if g[i][j] > 0 then g[i][j] else INFINITE_LEN
    ensures Lower(g, i, j, 0, d) && Attained(g, i, j, d, if d < INFINITE_LEN then j else -1)
  {
    forall w | Joins(g, w, i, j) && Through(w, 0) ensures d <= Len(g, w) {
      Vertices(g, w);
      assert |w| <= 2;
    }
    if i == j {
      assert AttainedBy(g, i, j, d, j, [i]);
    } else if d < INFINITE_LEN {
      assert [i, j][1..] == [j] && Walk(g, [j]) && Len(g, [j]) == 0;
      assert AttainedBy(g, i, j, d, j, [i, j]);
    }
  }

  /** What is known of one cell of the tables once the vertices below k have been added. */
  ghost predicate Cell(g: Weights, i: int, j: int, k: int, d: int, p: int)
    requires Square(g)
  {
    Lower(g, i, j, k, d) && Attained(g, i, j, d, p)
  }

  lemma CellWeaker(g: Weights, i: int, j: int, k: int, d: int, p: int)
    requires Square(g) && Cell(g, i, j, k + 1, d, p)
    ensures Cell(g, i, j, k, d, p)
  {
  }

  /** Relaxing cell (i, j) through k, whatever has been done to the cells it reads. */
  lemma Relax(g: Weights, i: int, j: int, k: int, dij: int, pij: int, dik: int, pik: int, dkj: int, pkj: int)
    requires Square(g) && k >= 0
    requires Cell(g, i, j, k, dij, pij) && Cell(g, i, k, k, dik, pik) && Cell(g, k, j, k, dkj, pkj)
    requires i == k ==> dkj == dij
    ensures dik + dkj < dij ==> Cell(g, i, j, k + 1, dik + dkj, pik)
    ensures dik + dkj >= dij ==> Cell(g, i, j, k + 1, dij, pij)
  {
    NotNegative(g, i, j, dij, pij);
    NotNegative(g, i, k, dik, pik);
    NotNegative(g, k, j, dkj, pkj);
    if dik + dkj < dij {
      LowerAcross(g, i, j, k, dij, dik, dkj, dik + dkj);
      AttainedAcross(g, i, k, j, dik, pik, dkj, pkj);
    } else {
      LowerAcross(g, i, j, k, dij, dik, dkj, dij);
    }
  }

  /** When every vertex has been added, d is the distance and p the first hop of a shortest walk. */
  ghost predicate Solved(g: Weights, i: int, j: int, d: int, p: int)
    requires Square(g)
  {
    IsDistance(g, i, j, d) && Attained(g, i, j, d, p)
  }

  lemma AllAdded(g: Weights, i: int, j: int, d: int, p: int)
    requires Square(g) && Cell(g, i, j, |g|, d, p)
    ensures Solved(g, i, j, d, p)
  {
    forall w | Joins(g, w, i, j) ensures Through(w, |g|) {
      Vertices(g, w);
    }
    if d < INFINITE_LEN {
      var w :| AttainedBy(g, i, j, d, p, w);
      assert Joins(g, w, i, j) && Len(g, w) == d;
    }
  }

  lemma {:induction false} Vertices(g: Weights, w: seq<int>)
    requires Square(g) && Walk(g, w)
    ensures forall a | 0 <= a < |w| :: 0 <= w[a] < |g|
  {
    if |w| > 1 {
      Vertices(g, w[1..]);
      assert forall a | 0 < a < |w| :: w[a] == w[1..][a - 1];
    }
  }

  /** The next hop is a real edge towards j, and the distance falls by its weight. */
  lemma NextHop(g: Weights, i: int, j: int, d: int, p: int, dp: int, pp: int)
    requires Square(g) && 0 <= i < |g| && i != j && Solved(g, i, j, d, p) && Solved(g, p, j, dp, pp)
    requires d < INFINITE_LEN
    ensures Edge(g, i, p) && dp == d - g[i][p] < d
  {
    var w :| AttainedBy(g, i, j, d, p, w);
    assert Joins(g, w[1..], p, j);
    assert dp <= d - g[i][p];
    var v :| Joins(g, v, p, j) && Len(g, v) == dp;
    assert ([i] + v)[1..] == v;
    assert Joins(g, [i] + v, i, j);
  }

  /** Path holds a vertex just when there is a way. */
  lemma HopExistsIffReachable(g: Weights, i: int, j: int, d: int, p: int)
    requires Square(g) && 0 <= i < |g| && i != j && Solved(g, i, j, d, p)
    ensures d < INFINITE_LEN <==> 0 <= p < |g|
  {
  }

  // ----- the tables, updated in place -----

  class Graph {
    var curCnt: nat
    const arr: array2<int>
    const Distance: array2<int>
    const Path: array2<int>

    /** The tables have room for curCnt vertices, and g is the graph in arr. */
    ghost predicate Holds(g: Weights)
      reads this, arr
    {
      && |g| == curCnt && Usable(g)
      && curCnt <= arr.Length0 && curCnt <= arr.Length1
      && curCnt <= Distance.Length0 && curCnt <= Distance.Length1
      && curCnt <= Path.Length0 && curCnt <= Path.Length1
      && arr != Distance && arr != Path && Distance != Path
      && (forall i, j | 0 <= i < curCnt && 0 <= j < curCnt :: g[i][j] == arr[i, j])
    }

    ghost predicate CellAt(g: Weights, i: int, j: int, k: int)
      requires Holds(g) && 0 <= i < curCnt && 0 <= j < curCnt
      reads this, arr, Distance, Path
    {
      Cell(g, i, j, k, Distance[i, j], Path[i, j])
    }

    ghost predicate Answers(g: Weights)
      requires Holds(g)
      reads this, arr, Distance, Path
    {
      forall i, j {:trigger Distance[i, j]} | 0 <= i < curCnt && 0 <= j < curCnt ::
        Solved(g, i, j, Distance[i, j], Path[i, j])
    }

    /** The tables while cell (i, j) is next to be relaxed through k. */
    ghost predicate Relaxing(g: Weights, k: int, i: int, j: int)
      requires Holds(g)
      reads this, arr, Distance, Path
    {
      forall x, y {:trigger CellAt(g, x, y, k)} | 0 <= x < curCnt && 0 <= y < curCnt ::
        CellAt(g, x, y, k) && (x < i || (x == i && y < j) ==> CellAt(g, x, y, k + 1))
    }

    method InitCell(ghost g: Weights, i: int, j: int)
      requires Holds(g) && 0 <= i < curCnt && 0 <= j < curCnt
      modifies Distance, Path
      ensures Holds(g) && CellAt(g, i, j, 0)
      ensures forall x, y {:trigger CellAt(g, x, y, 0)} | 0 <= x < curCnt && 0 <= y < curCnt && (x, y) != (i, j) ::
                old(CellAt(g, x, y, 0)) ==> CellAt(g, x, y, 0)
    {
      if i == j {
        Distance[i, j] := 0;
      } else {
        Distance[i, j] := if arr[i, j] > 0 then arr[i, j] else INFINITE_LEN;
      }
      Path[i, j] := if Distance[i, j] < INFINITE_LEN then j else -1;
      LowerStart(g, i, j, Distance[i, j]);
    }

    method Init(ghost g: Weights)
      requires Holds(g)
      modifies Distance, Path
      ensures Holds(g) && Relaxing(g, 0, 0, 0)
    {
      for i := 0 to curCnt
        invariant Holds(g)
        invariant forall x, y {:trigger CellAt(g, x, y, 0)} | 0 <= x < i && 0 <= y < curCnt :: CellAt(g, x, y, 0)
      {
        for j := 0 to curCnt
          invariant Holds(g)
          invariant forall x, y {:trigger CellAt(g, x, y, 0)} | 0 <= x <= i && 0 <= y < curCnt && (x == i ==> y < j) ::
                      CellAt(g, x, y, 0)
        {
          InitCell(g, i, j);
        }
      }
    }

    /** The body of the three loops. */
    method RelaxCell(ghost g: Weights, k: int, i: int, j: int)
      requires Holds(g) && 0 <= k < curCnt && 0 <= i < curCnt && 0 <= j < curCnt && Relaxing(g, k, i, j)
      modifies Distance, Path
      ensures Holds(g) && Relaxing(g, k, i, j + 1)
    {
      assert CellAt(g, i, j, k) && CellAt(g, i, k, k) && CellAt(g, k, j, k);
      Relax(g, i, j, k, Distance[i, j], Path[i, j], Distance[i, k], Path[i, k], Distance[k, j], Path[k, j]);
      if Distance[i, k] + Distance[k, j] < Distance[i, j] {
        Distance[i, j] := Distance[i, k] + Distance[k, j];
        Path[i, j] := Path[i, k];
      }
      assert CellAt(g, i, j, k + 1);
      CellWeaker(g, i, j, k, Distance[i, j], Path[i, j]);
      forall x, y {:trigger CellAt(g, x, y, k)} | 0 <= x < curCnt && 0 <= y < curCnt
        ensures CellAt(g, x, y, k) && (x < i || (x == i && y < j + 1) ==> CellAt(g, x, y, k + 1))
      {
        if x != i || y != j {
          assert old(CellAt(g, x, y, k));
        }
      }
    }

    lemma RowDone(g: Weights, k: int, i: int)
      requires Holds(g) && Relaxing(g, k, i, curCnt)
      ensures Relaxing(g, k, i + 1, 0)
    {
    }

    lemma PhaseDone(g: Weights, k: int, next: int)
      requires Holds(g) && Relaxing(g, k, curCnt, 0) && next == k + 1
      ensures Relaxing(g, next, 0, 0)
    {
      forall x, y {:trigger CellAt(g, x, y, next)} | 0 <= x < curCnt && 0 <= y < curCnt ensures CellAt(g, x, y, next) {
        assert CellAt(g, x, y, k);
      }
    }

    /** After _Floyd, Distance holds every shortest distance and Path the first hop of a walk that has it. */
    method Floyd(ghost g: Weights)
      requires Holds(g)
      modifies Distance, Path
      ensures Holds(g) && Answers(g)
    {
      Init(g);
      for k := 0 to curCnt
        invariant Holds(g) && Relaxing(g, k, 0, 0)
      {
        for i := 0 to curCnt
          invariant Holds(g) && Relaxing(g, k, i, 0)
        {
          for j := 0 to curCnt
            invariant Holds(g) && Relaxing(g, k, i, j)
          {
            RelaxCell(g, k, i, j);
          }
          RowDone(g, k, i);
        }
        PhaseDone(g, k, k + 1);
      }
      forall i, j | 0 <= i < curCnt && 0 <= j < curCnt ensures Solved(g, i, j, Distance[i, j], Path[i, j]) {
        assert CellAt(g, i, j, curCnt);
        AllAdded(g, i, j, Distance[i, j], Path[i, j]);
      }
    }

    /** One more hop along the tables extends a walk and shortens what is left by as much. */
    lemma Hop(g: Weights, w: seq<int>, from: int, at: int, to: int)
      requires Holds(g) && Answers(g) && 0 <= at < curCnt && 0 <= to < curCnt && at != to
      requires Distance[at, to] < INFINITE_LEN && Joins(g, w, from, at)
      ensures var p := Path[at, to];
              && 0 <= p < curCnt && Distance[p, to] < Distance[at, to]
              && Joins(g, w + [p], from, p)
              && Len(g, w + [p]) + Distance[p, to] == Len(g, w) + Distance[at, to]
    {
      var p := Path[at, to];
      HopExistsIffReachable(g, at, to, Distance[at, to], p);
      NextHop(g, at, to, Distance[at, to], p, Distance[p, to], Path[p, to]);
      assert [at, p][1..] == [p] && Walk(g, [p]) && Len(g, [p]) == 0;
      LenJoin(g, w, [at, p]);
    }

    /** The vertices of a shortest walk from from to to, none of them twice. */
    method GetPath(ghost g: Weights, from: int, to: int) returns (retVec: seq<int>)
      requires Holds(g) && Answers(g) && 0 <= from < curCnt && 0 <= to < curCnt
      requires Distance[from, to] < INFINITE_LEN
      ensures Joins(g, retVec, from, to) && Len(g, retVec) == Distance[from, to]
      ensures forall a, b | 0 <= a < b < |retVec| :: retVec[a] != retVec[b]
    {
      var at := from;
      retVec := [];
      assert Joins(g, [from], from, from) && Len(g, [from]) == 0;
      while at != to
        invariant 0 <= at < curCnt && Distance[at, to] < INFINITE_LEN
        invariant Joins(g, retVec + [at], from, at)
        invariant Len(g, retVec + [at]) + Distance[at, to] == Distance[from, to]
        invariant Distance[at, to] >= 0
        invariant forall a | 0 <= a < |retVec| :: 0 <= retVec[a] < curCnt && Distance[retVec[a], to] > Distance[at, to]
        invariant forall a, b | 0 <= a < b < |retVec| :: retVec[a] != retVec[b]
        decreases Distance[at, to]
      {
        Hop(g, retVec + [at], from, at, to);
        retVec := retVec + [at];
        at := Path[at, to];
      }
      retVec := retVec + [to];
    }
  }
}
