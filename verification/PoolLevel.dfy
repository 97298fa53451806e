/** CPoolLevel: free blocks of six sizes, each level's blocks twice as large as those below. A level that has run out is
    refilled by halving blocks of the level above; the top level asks malloc. */
module PoolLevel {
  import opened Common
  import opened Division

  const MIN_BLOCK: nat := 32
  const MAX_LEVEL: nat := 5

  /** MIN_BLOCK << lv */
  function LevelSize(lv: nat): nat {
    if lv == 0 then MIN_BLOCK else 2 * LevelSize(lv - 1)
  }

  datatype Block = Block(addr: int, lv: nat)

  /** Memory malloc has given out. */
  datatype Arena = Arena(addr: int, len: nat)

  type Queues = seq<seq<int>>

  ghost predicate In(x: int, b: Block) {
    b.addr <= x < b.addr + LevelSize(b.lv)
  }

  ghost predicate InArena(x: int, a: Arena) {
    a.addr <= x < a.addr + a.len
  }

  ghost predicate Apart(b: Block, c: Block) {
    b.addr + LevelSize(b.lv) <= c.addr || c.addr + LevelSize(c.lv) <= b.addr
  }

  ghost predicate Beside(a: Arena, c: Arena) {
    a.addr + a.len <= c.addr || c.addr + c.len <= a.addr
  }

  /** The blocks do not overlap and make up exactly the arenas. */
  ghost predicate Tiles(blocks: set<Block>, arenas: set<Arena>) {
    && (forall b, c {:trigger Apart(b, c)} | b in blocks && c in blocks && b != c :: Apart(b, c))
    && (forall b, x {:trigger In(x, b)} | b in blocks && In(x, b) :: exists a | a in arenas :: InArena(x, a))
    && (forall a, x {:trigger InArena(x, a)} | a in arenas && InArena(x, a) :: exists b | b in blocks :: In(x, b))
  }

  ghost predicate IsFree(qs: Queues, b: Block) {
    b.lv < |qs| && b.addr in qs[b.lv]
  }

  ghost function Free(qs: Queues): (f: set<Block>)
    ensures forall b {:trigger b in f} :: b in f <==> IsFree(qs, b)
  {
    set lv, i | 0 <= lv < |qs| && 0 <= i < |qs[lv]| :: Block(qs[lv][i], lv)
  }

  /** Free blocks are queued once; they and the blocks in use tile the arenas. */
  ghost predicate Tiled(qs: Queues, live: set<Block>, arenas: set<Arena>) {
    && |qs| == MAX_LEVEL + 1
    && (forall lv {:trigger qs[lv]} | 0 <= lv <= MAX_LEVEL :: Distinct(qs[lv]))
    && (forall b | b in live :: b.lv <= MAX_LEVEL && !IsFree(qs, b))
    && Tiles(Free(qs) + live, arenas)
  }

  lemma {:induction false} SizePositive(lv: nat)
    ensures LevelSize(lv) >= MIN_BLOCK
  {
    if lv > 0 { SizePositive(lv - 1); }
  }

  lemma {:induction false} SizesGrow(lv: nat, lw: nat)
    requires lv < lw
    ensures 2 * LevelSize(lv) <= LevelSize(lw)
  {
    SizePositive(lv);
    if lv + 1 < lw { SizesGrow(lv, lw - 1); }
  }

  ghost function Halves(b: Block): set<Block>
    requires b.lv > 0
  {
    {Block(b.addr, b.lv - 1), Block(b.addr + LevelSize(b.lv - 1), b.lv - 1)}
  }

  /** Halving a block leaves a tiling. */
  lemma HalvingTiles(blocks: set<Block>, arenas: set<Arena>, b: Block)
    requires Tiles(blocks, arenas) && b in blocks && b.lv > 0
    ensures Tiles(blocks - {b} + Halves(b), arenas)
    ensures Halves(b) !! blocks
  {
    var half := LevelSize(b.lv - 1);
    var l, r := Block(b.addr, b.lv - 1), Block(b.addr + half, b.lv - 1);
    var now := blocks - {b} + Halves(b);
    SizePositive(b.lv - 1);
    forall c | c in blocks && c != b
      ensures Apart(c, l) && Apart(c, r) && Apart(l, c) && Apart(r, c) && c != l && c != r
    {
      assert Apart(c, b);
      SizePositive(c.lv);
    }
    assert Apart(l, r) && Apart(r, l);
    forall c, x | c in now && In(x, c) ensures exists a | a in arenas :: InArena(x, a) {
      assert c in blocks || In(x, b);
    }
    forall a, x | a in arenas && InArena(x, a) ensures exists c | c in now :: In(x, c) {
      var c :| c in blocks && In(x, c);
      if c == b {
        assert In(x, l) || In(x, r);
        assert l in now && r in now;
      } else {
        assert c in now;
      }
    }
  }

  ghost function Halved(qs: Queues, lv: nat): (r: Queues)
    requires 0 < lv < |qs| && qs[lv] != []
  {
    qs[lv := qs[lv][1..]][lv - 1 := qs[lv - 1] + [qs[lv][0], qs[lv][0] + LevelSize(lv - 1)]]
  }

  lemma HalvedFree(qs: Queues, lv: nat)
    requires 0 < lv < |qs| && qs[lv] != [] && Distinct(qs[lv])
    ensures Free(Halved(qs, lv)) == Free(qs) - {Block(qs[lv][0], lv)} + Halves(Block(qs[lv][0], lv))
  {
  }

  /** One turn of the loop in _Split. */
  lemma HalvedTiled(qs: Queues, live: set<Block>, arenas: set<Arena>, lv: nat)
    requires Tiled(qs, live, arenas) && 0 < lv <= MAX_LEVEL && qs[lv] != []
    ensures Tiled(Halved(qs, lv), live, arenas)
  {
    var b := Block(qs[lv][0], lv);
    assert IsFree(qs, b);
    HalvingTiles(Free(qs) + live, arenas, b);
    HalvedFree(qs, lv);
    assert Free(Halved(qs, lv)) + live == (Free(qs) + live) - {b} + Halves(b);
    SizePositive(lv - 1);
    assert Block(b.addr, lv - 1) in Halves(b) && Block(b.addr + LevelSize(lv - 1), lv - 1) in Halves(b);
    var below := qs[lv - 1];
    forall i | 0 <= i < |below| ensures below[i] != b.addr && below[i] != b.addr + LevelSize(lv - 1) {
      assert IsFree(qs, Block(below[i], lv - 1));
    }
    forall c | c in live ensures !IsFree(Halved(qs, lv), c) {
      assert c in Free(Halved(qs, lv)) <==> IsFree(Halved(qs, lv), c);
    }
  }

  /** A block behind the growing arena. */
  lemma PageTiles(blocks: set<Block>, arenas: set<Arena>, p: int, len: nat, b: Block)
    requires Tiles(blocks, arenas + {Arena(p, len)}) && b == Block(p + len, MAX_LEVEL)
    requires forall a | a in arenas :: Beside(a, Arena(p, len + LevelSize(MAX_LEVEL)))
    ensures b !in blocks && Tiles(blocks + {b}, arenas + {Arena(p, len + LevelSize(MAX_LEVEL))})
  {
    var size := LevelSize(MAX_LEVEL);
    var was, whole := Arena(p, len), Arena(p, len + size);
    SizePositive(MAX_LEVEL);
    forall c | c in blocks ensures c != b && Apart(c, b) && Apart(b, c) {
      SizePositive(c.lv);
      if !Apart(c, b) {
        var x := if c.addr <= b.addr then b.addr else c.addr;
        assert In(x, c);
      }
    }
    forall c, x | c in blocks + {b} && In(x, c) ensures exists a | a in arenas + {whole} :: InArena(x, a) {
      if c == b {
        assert InArena(x, whole);
      } else {
        var a :| a in arenas + {was} && InArena(x, a);
        assert a == was ==> InArena(x, whole);
      }
    }
    forall a, x | a in arenas + {whole} && InArena(x, a) ensures exists c | c in blocks + {b} :: In(x, c) {
      if a == whole && x >= p + len {
        assert In(x, b);
      } else {
        var a0 := if a == whole && a !in arenas then was else a;
        assert InArena(x, a0);
        var c :| c in blocks && In(x, c);
        assert c in blocks + {b};
      }
    }
  }

  lemma EmptyArena(qs: Queues, live: set<Block>, arenas: set<Arena>, p: int)
    requires Tiled(qs, live, arenas)
    ensures Tiled(qs, live, arenas + {Arena(p, 0)})
  {
  }

  /** One turn of the loop in _Double. */
  lemma PushedTiled(qs: Queues, live: set<Block>, arenas: set<Arena>, p: int, len: nat)
    requires Tiled(qs, live, arenas + {Arena(p, len)})
    requires forall a | a in arenas :: Beside(a, Arena(p, len + LevelSize(MAX_LEVEL)))
    ensures Tiled(qs[MAX_LEVEL := qs[MAX_LEVEL] + [p + len]], live, arenas + {Arena(p, len + LevelSize(MAX_LEVEL))})
  {
    var b := Block(p + len, MAX_LEVEL);
    var r := qs[MAX_LEVEL := qs[MAX_LEVEL] + [p + len]];
    PageTiles(Free(qs) + live, arenas, p, len, b);
    assert IsFree(qs, b) <==> b in Free(qs);
    assert Free(r) + live == Free(qs) + live + {b};
  }

  /** A free block handed out, or taken back. */
  lemma HandedOut(qs: Queues, live: set<Block>, arenas: set<Arena>, lv: nat)
    requires Tiled(qs, live, arenas) && lv <= MAX_LEVEL && qs[lv] != []
    ensures var b := Block(qs[lv][0], lv); b !in live && Tiled(qs[lv := qs[lv][1..]], live + {b}, arenas)
  {
  }

  lemma TakenBack(qs: Queues, live: set<Block>, arenas: set<Arena>, b: Block)
    requires Tiled(qs, live, arenas) && b in live
    ensures Tiled(qs[b.lv := qs[b.lv] + [b.addr]], live - {b}, arenas)
  {
  }

  // ----- the pool -----

  ghost predicate Empty(qs: Queues, lv: nat) {
    forall l {:trigger qs[l]} | lv <= l < |qs| :: qs[l] == []
  }

  /** What malloc promises of its answer p: NULL, or n bytes used for nothing else. */
  ghost predicate Malloced(p: int, n: nat, used: set<Arena>) {
    p == 0 || (p > 0 && forall a | a in used :: Beside(a, Arena(p, n)))
  }

  /** What halving the first n blocks of a queue adds to the queue below. */
  ghost function HalvesOf(q: seq<int>, lv: nat): (h: seq<int>)
    requires lv > 0
    ensures |h| == 2 * |q|
  {
    if q == [] then [] else HalvesOf(q[..|q| - 1], lv) + [q[|q| - 1], q[|q| - 1] + LevelSize(lv - 1)]
  }

  /** lv is the lowest level with blocks of this size or more. */
  ghost predicate Serves(size: int, lv: nat) {
    lv <= MAX_LEVEL && size <= LevelSize(lv) && forall l: nat | l < lv :: size > LevelSize(l)
  }

  /** r is a block that was not in use and is now, or NULL. */
  ghost predicate Handed(r: int, lv: nat, was: set<Block>, live: set<Block>) {
    if r == 0 then live == was
    else r > 0 && Block(r, lv) !in was && live == was + {Block(r, lv)} && forall b | b in was :: Apart(b, Block(r, lv))
  }

  /** More than half of a level moved down. */
  ghost function MoreThanHalfDown(qs: Queues, lv: nat): (r: Queues)
    requires 0 < lv < |qs| && qs[lv] != []
    ensures |r| == |qs| && r[lv - 1] != []
  {
    MovedDownElsewhere(qs, lv, |qs[lv]| / 2 + 1);
    MovedDown(qs, lv, |qs[lv]| / 2 + 1)
  }

  /** Level lv with a block to give: if it is empty, the next level, itself refilled, gives more than half its blocks;
      the top level gets an arena of n pages at p. */
  ghost function Refilled(qs: Queues, lv: nat, p: int, n: nat): (r: Queues)
    requires |qs| == MAX_LEVEL + 1 && lv <= MAX_LEVEL && n > 0
    ensures |r| == |qs| && r[lv] != []
    decreases MAX_LEVEL - lv
  {
    if qs[lv] != [] then qs
    else if lv == MAX_LEVEL then Grown(qs, p, n)
    else MoreThanHalfDown(Refilled(qs, lv + 1, p, n), lv + 1)
  }

  lemma NoRefill(qs: Queues, lv: nat, p: int, n: nat)
    requires |qs| == MAX_LEVEL + 1 && lv <= MAX_LEVEL && n > 0 && qs[lv] != []
    ensures Refilled(qs, lv, p, n) == qs
  {
  }

  /** The first n blocks of a level moved down, each in halves. */
  ghost function MovedDown(qs: Queues, lv: nat, n: nat): Queues
    requires 0 < lv < |qs| && n <= |qs[lv]|
  {
    qs[lv := qs[lv][n..]][lv - 1 := qs[lv - 1] + HalvesOf(qs[lv][..n], lv)]
  }

  lemma NoneMovedDown(qs: Queues, lv: nat)
    requires 0 < lv < |qs|
    ensures MovedDown(qs, lv, 0) == qs
  {
    assert qs[lv - 1] + [] == qs[lv - 1];
  }

  lemma MovedDownElsewhere(qs: Queues, lv: nat, n: nat)
    requires 0 < lv < |qs| && 0 < n <= |qs[lv]|
    ensures var r := MovedDown(qs, lv, n);
            |r| == |qs| && r[lv - 1] != [] && forall l | 0 <= l < lv - 1 :: r[l] == qs[l]
  {
  }

  lemma OneMoreMovedDown(qs: Queues, lv: nat, n: nat)
    requires 0 < lv < |qs| && n < |qs[lv]|
    ensures MovedDown(qs, lv, n)[lv] != [] && Halved(MovedDown(qs, lv, n), lv) == MovedDown(qs, lv, n + 1)
  {
    var q := qs[lv];
    assert q[..n + 1][..n] == q[..n];
    assert HalvesOf(q[..n + 1], lv) == HalvesOf(q[..n], lv) + [q[n], q[n] + LevelSize(lv - 1)];
    assert q[n..][1..] == q[n + 1..];
    var halves := [q[n], q[n] + LevelSize(lv - 1)];
    assert qs[lv - 1] + HalvesOf(q[..n], lv) + halves == qs[lv - 1] + HalvesOf(q[..n + 1], lv);
  }

  /** The addresses of an arena's pages. */
  function PageAt(p: int, i: nat): int {
    p + i * LevelSize(MAX_LEVEL)
  }

  ghost function Pages(p: int, n: nat): (q: seq<int>)
    ensures |q| == n && forall i | 0 <= i < n :: q[i] == PageAt(p, i)
  {
    if n == 0 then [] else Pages(p, n - 1) + [PageAt(p, n - 1)]
  }

  /** The top queue with n pages more. */
  ghost function Grown(qs: Queues, p: int, n: nat): Queues
    requires |qs| == MAX_LEVEL + 1
  {
    qs[MAX_LEVEL := qs[MAX_LEVEL] + Pages(p, n)]
  }

  lemma GrowsByOne(qs: Queues, p: int, n: nat)
    requires |qs| == MAX_LEVEL + 1
    ensures Grown(qs, p, 0) == qs && PageAt(p, 0) == p
    ensures var r := Grown(qs, p, n); r[MAX_LEVEL := r[MAX_LEVEL] + [PageAt(p, n)]] == Grown(qs, p, n + 1)
  {
    assert qs[MAX_LEVEL] + [] == qs[MAX_LEVEL];
    assert qs[MAX_LEVEL] + Pages(p, n) + [PageAt(p, n)] == qs[MAX_LEVEL] + Pages(p, n + 1);
  }

  class CPoolLevel {
    const maxLvCnt: nat
    const queue: array<seq<int>>
    // blocks in use, those too large for any level, and what malloc has given for the queues
    ghost var live: set<Block>
    ghost var large: set<Arena>
    ghost var arenas: set<Arena>

    ghost predicate Valid()
      reads this, queue
    {
      && maxLvCnt > 0 && queue.Length == MAX_LEVEL + 1
      && Tiled(queue[..], live, arenas)
      && (forall a | a in arenas :: a.addr > 0)
      && (forall a, b | a in arenas && b in large :: Beside(a, b))
    }

    ghost predicate Granted(p: int)
      reads this
    {
      Malloced(p, TopBytes(), arenas + large)
    }

    /** The size of an arena. */
    ghost function TopBytes(): nat {
      maxLvCnt * LevelSize(MAX_LEVEL)
    }

    /** p is what malloc answers. */
    constructor (maxLvCnt: nat, p: int)
      requires maxLvCnt > 0 && Malloced(p, maxLvCnt * LevelSize(MAX_LEVEL), {})
      ensures Valid() && live == {} && large == {} && this.maxLvCnt == maxLvCnt && fresh(queue)
      ensures arenas == if p == 0 then {} else {Arena(p, TopBytes())}
      ensures var none := seq(MAX_LEVEL + 1, _ => []);
              queue[..] == if p == 0 then none else none[MAX_LEVEL := Pages(p, maxLvCnt)]
    {
      this.maxLvCnt := maxLvCnt;
      queue := new seq<int>[MAX_LEVEL + 1](_ => []);
      live, large, arenas := {}, {}, {};
      new;
      ghost var none := queue[..];
      var ok := Double(p);
      assert none[MAX_LEVEL] + Pages(p, maxLvCnt) == Pages(p, maxLvCnt);
      assert none == seq(MAX_LEVEL + 1, _ => []);
    }

    /** The lowest level whose blocks are large enough; -1 where there is none. */
    method GetLevel(size: int) returns (lv: int)
      ensures lv == -1 ==> size > LevelSize(MAX_LEVEL)
      ensures lv != -1 ==> 0 <= lv <= MAX_LEVEL && size <= LevelSize(lv) && (lv > 0 ==> size > LevelSize(lv - 1))
    {
      for i := 0 to MAX_LEVEL + 1
        invariant i > 0 ==> size > LevelSize(i - 1)
      {
        if size <= LevelSize(i) {
          return i;
        }
      }
      return -1;
    }

    /** _Double, which is only called for the top level: the arena goes to the queue page by page. */
    method Double(p: int) returns (ok: bool)
      requires Valid() && Granted(p)
      modifies queue, this`arenas
      ensures Valid() && ok == (p != 0)
      ensures !ok ==> queue[..] == old(queue[..]) && arenas == old(arenas)
      ensures ok ==> arenas == old(arenas) + {Arena(p, TopBytes())} && queue[..] == Grown(old(queue[..]), p, maxLvCnt)
      ensures ok ==> queue[MAX_LEVEL] != [] && forall l | 0 <= l < MAX_LEVEL :: queue[l] == old(queue[l])
    {
      hide Tiled, LevelSize;
      if p == 0 {
        return false;
      }
      PushPages(p);
      arenas := arenas + {Arena(p, TopBytes())};
      assert forall l | 0 <= l <= MAX_LEVEL :: queue[l] == queue[..][l];
      return true;
    }

    method PushPages(p: int)
      requires queue.Length == MAX_LEVEL + 1 && Tiled(queue[..], live, arenas)
      requires forall a | a in arenas :: Beside(a, Arena(p, TopBytes()))
      modifies queue
      ensures queue[..] == Grown(old(queue[..]), p, maxLvCnt)
      ensures Tiled(queue[..], live, arenas + {Arena(p, TopBytes())})
    {
      hide Tiled, LevelSize, Grown, PageAt;
      var at := p;
      EmptyArena(queue[..], live, arenas, p);
      GrowsByOne(queue[..], p, 0);
      for i := 0 to maxLvCnt
        invariant queue.Length == MAX_LEVEL + 1 && at == PageAt(p, i) && p <= at
        invariant Tiled(queue[..], live, arenas + {Arena(p, at - p)})
        invariant queue[..] == Grown(old(queue[..]), p, i)
      {
        PageFits(p, i, maxLvCnt, arenas);
        PushedTiled(queue[..], live, arenas, p, at - p);
        GrowsByOne(old(queue[..]), p, i);
        Push(at);
        at := at + LevelSize(MAX_LEVEL);
      }
      LastPageAt(p);
    }

    lemma LastPageAt(p: int)
      ensures PageAt(p, maxLvCnt) - p == TopBytes()
    {
    }

    method Push(at: int)
      requires queue.Length == MAX_LEVEL + 1
      modifies queue
      ensures queue[..] == old(queue[..])[MAX_LEVEL := old(queue[..])[MAX_LEVEL] + [at]]
    {
      queue[MAX_LEVEL] := queue[MAX_LEVEL] + [at];
    }

    lemma SizesUpTo(lv: nat)
      ensures forall l: nat | l < lv :: LevelSize(l) <= LevelSize(lv - 1)
    {
      forall l: nat | l < lv ensures LevelSize(l) <= LevelSize(lv - 1) {
        if l < lv - 1 {
          SizePositive(l);
          SizesGrow(l, lv - 1);
        }
      }
    }

    static lemma PageFits(p: int, i: nat, n: nat, used: set<Arena>)
      requires i < n && forall a | a in used :: Beside(a, Arena(p, n * LevelSize(MAX_LEVEL)))
      ensures p <= PageAt(p, i) <= PageAt(p, i + 1) == PageAt(p, i) + LevelSize(MAX_LEVEL)
      ensures forall a | a in used :: Beside(a, Arena(p, PageAt(p, i) - p + LevelSize(MAX_LEVEL)))
    {
      SizePositive(MAX_LEVEL);
      TimesMonotone(i + 1, n, LevelSize(MAX_LEVEL));
      forall a | a in used ensures Beside(a, Arena(p, PageAt(p, i) - p + LevelSize(MAX_LEVEL))) {
        assert Beside(a, Arena(p, n * LevelSize(MAX_LEVEL)));
      }
    }

    method Append(lv: nat, p: int) returns (ok: bool)
      requires Valid() && Granted(p) && lv <= MAX_LEVEL && queue[lv] == []
      modifies queue, this`arenas
      ensures Valid() && ok == (p != 0 || !Empty(old(queue[..]), lv))
      ensures ok ==> queue[lv] != []
      ensures !ok ==> queue[..] == old(queue[..])
      ensures ok ==> queue[..] == Refilled(old(queue[..]), lv, p, maxLvCnt)
      ensures arenas == if ok && Empty(old(queue[..]), lv) then old(arenas) + {Arena(p, TopBytes())} else old(arenas)
    {
      hide Tiled, MoreThanHalfDown, Grown, LevelSize;
      if lv < MAX_LEVEL {
        ok := Split(lv + 1, p);
      } else {
        ok := Double(p);
      }
    }

    /** More than half the blocks of a level are halved, after the levels above have refilled it if it was empty; malloc
        is asked only when they are all empty. */
    method Split(lv: nat, p: int) returns (ok: bool)
      requires Valid() && Granted(p) && 0 < lv <= MAX_LEVEL
      modifies queue, this`arenas
      ensures Valid() && ok == (p != 0 || !Empty(old(queue[..]), lv))
      ensures ok ==> queue[lv - 1] != []
      ensures !ok ==> queue[..] == old(queue[..])
      ensures arenas == if ok && Empty(old(queue[..]), lv) then old(arenas) + {Arena(p, TopBytes())} else old(arenas)
      ensures forall l | 0 <= l < lv - 1 :: queue[l] == old(queue[l])
      ensures ok ==> queue[..] == MoreThanHalfDown(Refilled(old(queue[..]), lv, p, maxLvCnt), lv)
      decreases MAX_LEVEL - lv
    {
      hide Tiled, MovedDown, Grown, LevelSize;
      if queue[lv] == [] {
        if lv == MAX_LEVEL {
          ok := Double(p);
        } else {
          ok := Split(lv + 1, p);
        }
        if !ok {
          return;
        }
      }
      HalveSome(lv);
      return true;
    }

    method HalveSome(lv: nat)
      requires Valid() && 0 < lv <= MAX_LEVEL && queue[lv] != []
      modifies queue
      ensures Valid()
      ensures queue[..] == MovedDown(old(queue[..]), lv, |old(queue[lv])| / 2 + 1)
      ensures queue[lv - 1] != [] && forall l | 0 <= l < lv - 1 :: queue[l] == old(queue[l])
    {
      hide Tiled, MovedDown, Halved;
      ghost var qs := queue[..];
      ghost var n := 0;
      NoneMovedDown(qs, lv);
      var size := |queue[lv]| / 2 + 1;
      while true
        invariant Valid() && n + size == |qs[lv]| / 2 + 1 && size > 0
        invariant queue[..] == MovedDown(qs, lv, n)
        decreases size
      {
        OneMoreMovedDown(qs, lv, n);
        assert queue[lv] == queue[..][lv];
        HalveOne(lv);
        n := n + 1;
        size := size - 1;
        if size == 0 {
          break;
        }
      }
      MovedDownElsewhere(qs, lv, n);
      assert forall l | 0 <= l < lv :: queue[l] == queue[..][l];
    }

    method HalveOne(lv: nat)
      requires Valid() && 0 < lv <= MAX_LEVEL && queue[lv] != []
      modifies queue
      ensures Valid() && queue[..] == Halved(old(queue[..]), lv)
    {
      HalvedTiled(queue[..], live, arenas, lv);
      var tmp := queue[lv][0];
      queue[lv] := queue[lv][1..];
      queue[lv - 1] := queue[lv - 1] + [tmp];
      queue[lv - 1] := queue[lv - 1] + [tmp + LevelSize(lv - 1)];
      ghost var below, half := old(queue[lv - 1]), LevelSize(lv - 1);
      assert below + [tmp] + [tmp + half] == below + [tmp, tmp + half];
      assert queue[..] == Halved(old(queue[..]), lv);
    }

    /** A block no one else uses and large enough; NULL just when every level that could serve is empty and malloc gives
        nothing. A request no level can serve goes to malloc, which answers with p. */
    method Alloc(size: int, p: int) returns (r: int)
      requires Valid()
      requires size <= LevelSize(MAX_LEVEL) ==> Granted(p)
      requires size > LevelSize(MAX_LEVEL) ==> Malloced(p, size, arenas + large)
      modifies queue, this`arenas, this`live, this`large
      ensures Valid()
      ensures size > LevelSize(MAX_LEVEL) ==>
                r == p && live == old(live) && arenas == old(arenas) && queue[..] == old(queue[..])
                && large == old(large) + (if p == 0 then {} else {Arena(p, size)})
      ensures size <= LevelSize(MAX_LEVEL) ==> large == old(large) && exists lv: nat ::
                Serves(size, lv) && (r == 0 <==> p == 0 && Empty(old(queue[..]), lv))
                && Handed(r, lv, old(live), live) && Taken(old(queue[..]), queue[..], lv, p, r)
                && arenas == if r != 0 && Empty(old(queue[..]), lv) then old(arenas) + {Arena(p, TopBytes())}
                             else old(arenas)
    {
      hide Tiled, Refilled, Apart;
      SizePositive(MAX_LEVEL);
      var lv := GetLevel(size);
      if lv == -1 {
        if p != 0 { large := large + {Arena(p, size)}; }
        return p;
      }
      SizesUpTo(lv);
      r := 0;
      ghost var was := queue[..];
      if queue[lv] == [] {
        var ok := Append(lv, p);
        if ok {
          r := Pop(lv);
        }
      } else {
        NoRefill(was, lv, p, maxLvCnt);
        r := Pop(lv);
      }
      assert Serves(size, lv);
    }

    /** r is the first block of its level, refilled if it was empty; nothing changes without one. */
    ghost predicate Taken(was: Queues, now: Queues, lv: nat, p: int, r: int)
      requires maxLvCnt > 0 && |was| == MAX_LEVEL + 1 && lv <= MAX_LEVEL
    {
      if r == 0 then now == was
      else var full := Refilled(was, lv, p, maxLvCnt); r == full[lv][0] && now == full[lv := full[lv][1..]]
    }

    method Pop(lv: nat) returns (r: int)
      requires Valid() && lv <= MAX_LEVEL && queue[lv] != []
      modifies queue, this`live
      ensures Valid() && r == old(queue[lv][0]) && r > 0
      ensures Block(r, lv) !in old(live) && live == old(live) + {Block(r, lv)}
      ensures forall b | b in old(live) :: Apart(b, Block(r, lv))
      ensures queue[..] == old(queue[..])[lv := old(queue[lv])[1..]]
    {
      HandedOut(queue[..], live, arenas, lv);
      r := queue[lv][0];
      assert IsFree(queue[..], Block(r, lv));
      SizePositive(lv);
      assert In(r, Block(r, lv));
      queue[lv] := queue[lv][1..];
      live := live + {Block(r, lv)};
    }

    /** Alloc's answer is given back, with the size asked for. */
    method Dealloc(p: int, size: int)
      requires Valid()
      requires size > LevelSize(MAX_LEVEL) ==> Arena(p, size) in large
      requires size <= LevelSize(MAX_LEVEL) ==> exists lv: nat :: Serves(size, lv) && Block(p, lv) in live
      modifies queue, this`live, this`large
      ensures Valid()
      ensures size > LevelSize(MAX_LEVEL) ==>
                large == old(large) - {Arena(p, size)} && live == old(live) && queue[..] == old(queue[..])
      ensures size <= LevelSize(MAX_LEVEL) ==> large == old(large) && exists lv: nat ::
                Serves(size, lv) && live == old(live) - {Block(p, lv)}
                && queue[..] == old(queue[..])[lv := old(queue[..])[lv] + [p]]
    {
      var lv := GetLevel(size);
      if lv == -1 {
        large := large - {Arena(p, size)};
        return;
      }
      SizesUpTo(lv);
      assert Serves(size, lv);
      TakenBack(queue[..], live, arenas, Block(p, lv));
      queue[lv] := queue[lv] + [p];
      live := live - {Block(p, lv)};
    }
  }
}
