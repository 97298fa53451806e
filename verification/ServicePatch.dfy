/** ServicePatch: one function called for all objects in turn, each once in kTimeAll milliseconds, with calls made up
    for after a lag. */
module ServicePatch {
  import opened Common
  import opened Cyclic
  import opened Division

  /** How many calls wait milliseconds are worth among n objects: a product of 32 bits, the quotient made an int. */
  function RunNum(wait: nat, n: nat, all: nat): int
    requires all > 0
  {
    var q := Uint32(wait * n) / all;
    if q < UINT32 / 2 then q else q - UINT32
  }

  function CallsFor(wait: nat, n: nat, all: nat): nat
    requires all > 0
  {
    if RunNum(wait, n, all) > 0 then RunNum(wait, n, all) else 0
  }

  /** What is left of them. */
  function LeftOf(wait: nat, n: nat, all: nat): nat
    requires n > 0
  {
    if all / n == 0 then 0 else wait % (all / n)
  }

  ghost predicate Divides(n: nat, all: nat)
    requires n > 0
  {
    all % n == 0
  }

  ghost predicate NoOverflow(wait: nat, n: nat, all: nat)
    requires all > 0
  {
    wait * n < UINT32 && wait * n / all < UINT32 / 2
  }

  /** No millisecond is lost or counted twice by a run that makes calls. */
  ghost predicate Kept(wait: nat, n: nat, all: nat)
    requires n > 0 && all > 0
  {
    Loss(wait, n, all) == 0
  }

  ghost function Loss(wait: nat, n: nat, all: nat): int
    requires n > 0 && all > 0
  {
    if RunNum(wait, n, all) == 0 then 0
    else wait - (CallsFor(wait, n, all) * (all / n) + LeftOf(wait, n, all))
  }

  lemma DivideBoth(a: nat, b: nat, n: nat)
    requires b > 0 && n > 0
    ensures b * n > 0 && a * n / (b * n) == a / b
  {
    var q, r := a / b, a % b;
    assert a == q * b + r;
    assert a * n == q * (b * n) + r * n;
    assert r * n < b * n;
    DivModUnique(a * n, b * n, q, r * n);
  }

  lemma PlainCalls(wait: nat, n: nat, all: nat)
    requires all > 0 && NoOverflow(wait, n, all)
    ensures RunNum(wait, n, all) == CallsFor(wait, n, all) == wait * n / all
  {
  }

  /** Where nothing overflows, a run keeps every millisecond, whatever the time waited, just when the number of objects
      divides kTimeAll, or the time of two calls overflows. */
  lemma KeptJustWhenDividing(n: nat, all: nat)
    requires 0 < n < UINT32 / 2 && 0 < all < UINT32
    ensures (forall wait: nat | NoOverflow(wait, n, all) :: Kept(wait, n, all)) <==>
              Divides(n, all) || (n <= all && 2 * (all / n) * n >= UINT32)
  {
    if Divides(n, all) {
      forall wait: nat | NoOverflow(wait, n, all) ensures Kept(wait, n, all) {
        KeptWhenDividing(wait, n, all);
      }
    } else if n <= all && 2 * (all / n) * n >= UINT32 {
      forall wait: nat | NoOverflow(wait, n, all) ensures Kept(wait, n, all) {
        KeptBelowTwo(wait, n, all);
      }
    } else {
      LostOtherwise(n, all);
    }
  }

  lemma KeptWhenDividing(wait: nat, n: nat, all: nat)
    requires n > 0 && all > 0 && Divides(n, all) && NoOverflow(wait, n, all)
    ensures all / n > 0 && CallsFor(wait, n, all) == wait / (all / n) && Kept(wait, n, all)
    ensures RunNum(wait, n, all) == 0 ==> wait < all / n
  {
    var one := all / n;
    assert all == one * n;
    DivideBoth(wait, one, n);
    PlainCalls(wait, n, all);
    assert wait == wait / one * one + wait % one;
  }

  lemma KeptBelowTwo(wait: nat, n: nat, all: nat)
    requires 0 < n <= all && NoOverflow(wait, n, all) && 2 * (all / n) * n >= UINT32
    ensures Kept(wait, n, all)
  {
    PlainCalls(wait, n, all);
    OneCall(wait, n, all, all / n);
    hide RunNum, NoOverflow;
    if wait * n >= all {
      DivModUnique(wait, all / n, 1, wait - all / n);
    }
  }

  lemma OneCall(wait: nat, n: nat, all: nat, one: nat)
    requires 0 < n <= all && one * n <= all && wait * n < 2 * one * n
    ensures wait * n / all == (if wait * n >= all then 1 else 0) && (wait * n >= all ==> one <= wait < 2 * one)
  {
    if wait >= 2 * one {
      TimesMonotone(2 * one, wait, n);
    }
    if wait < one {
      TimesMonotone(wait + 1, one, n);
    }
    assert 2 * one * n == 2 * (one * n) && (wait + 1) * n == wait * n + n;
    var p := wait * n;
    DivModUnique(p, all, if p >= all then 1 else 0, if p >= all then p - all else p);
  }

  /** Otherwise milliseconds are lost: after two calls' worth, or, with more objects than milliseconds, after one. */
  lemma LostOtherwise(n: nat, all: nat)
    requires 0 < n < UINT32 / 2 && 0 < all < UINT32 && !Divides(n, all)
    requires n <= all ==> 2 * (all / n) * n < UINT32
    ensures var wait := if n <= all then 2 * (all / n) else 1;
            NoOverflow(wait, n, all) && !Kept(wait, n, all)
  {
    if n <= all {
      LostAfterTwo(n, all);
    } else {
      LostAfterOne(n, all);
    }
  }

  lemma LostAfterTwo(n: nat, all: nat)
    requires 0 < n <= all && !Divides(n, all) && 2 * (all / n) * n < UINT32
    ensures NoOverflow(2 * (all / n), n, all) && !Kept(2 * (all / n), n, all)
  {
    var one, rest := all / n, all % n;
    assert all == one * n + rest && 0 < rest < n <= one * n;
    assert 2 * one * n == all + (one * n - rest);
    DivModUnique(2 * one * n, all, 1, one * n - rest);
    DivModUnique(2 * one, one, 2, 0);
  }

  lemma LostAfterOne(n: nat, all: nat)
    requires 0 < all < n < UINT32 / 2
    ensures NoOverflow(1, n, all) && !Kept(1, n, all)
  {
    DivModUnique(all, n, 0, all);
    DivMonotone(all, n, all);
    DivModUnique(all, all, 1, 0);
  }

  /** With a number of objects that divides kTimeAll, the overflow is what loses milliseconds. */
  lemma KeptJustWithoutOverflow(wait: nat, n: nat, all: nat)
    requires n > 0 && 0 < all < UINT32 && Divides(n, all)
    ensures Loss(wait, n, all) >= 0
    ensures Kept(wait, n, all) <==> NoOverflow(wait, n, all) || RunNum(wait, n, all) == 0
  {
    if NoOverflow(wait, n, all) {
      KeptWhenDividing(wait, n, all);
    } else if RunNum(wait, n, all) != 0 {
      var one, c := all / n, CallsFor(wait, n, all);
      assert all == one * n;
      DivideBoth(wait, one, n);
      FewerCalls(wait, n, all);
      hide RunNum, CallsFor, NoOverflow;
      FewerIsLess(wait, one, c);
    }
  }

  lemma FewerIsLess(wait: nat, one: nat, c: nat)
    requires one > 0 && c < wait / one
    ensures c * one + wait % one < wait
  {
    assert wait == wait / one * one + wait % one;
    TimesMonotone(c + 1, wait / one, one);
    assert (c + 1) * one == c * one + one;
  }

  lemma FewerCalls(wait: nat, n: nat, all: nat)
    requires 0 < all < UINT32 && !NoOverflow(wait, n, all)
    ensures CallsFor(wait, n, all) < wait * n / all
  {
    var p := wait * n;
    if p >= UINT32 {
      var u := Uint32(p);
      assert p == p / UINT32 * UINT32 + u && p / UINT32 >= 1;
      DivModUnique(u + all, all, u / all + 1, u % all);
      DivMonotone(u + all, p, all);
    }
  }

  /** So a run does not lose any just when neither the sum of the time waited nor the product overflows. */
  lemma RunLoses(sum: nat, n: nat, all: nat)
    requires n > 0 && 0 < all < UINT32 && Divides(n, all)
    ensures var w := Uint32(sum); var loss := sum - w + Loss(w, n, all);
            && loss >= 0
            && (loss == 0 <==> sum < UINT32 && (NoOverflow(sum, n, all) || RunNum(sum, n, all) == 0))
            && (sum < UINT32 && NoOverflow(sum, n, all) ==>
                  (if RunNum(w, n, all) == 0 then w else LeftOf(w, n, all)) < all / n)
  {
    KeptJustWithoutOverflow(Uint32(sum), n, all);
    if sum < UINT32 && NoOverflow(sum, n, all) {
      KeptWhenDividing(sum, n, all);
    }
    hide RunNum, NoOverflow, Loss;
  }

  // ----- taking turns -----

  /** Call j goes to the object at place (base + j) mod n. */
  ghost predicate InTurn(log: seq<nat>, base: nat, n: nat)
    requires n > 0
  {
    forall j | 0 <= j < |log| :: log[j] == (base + j) % n
  }

  ghost function Count(log: seq<nat>, i: nat): nat {
    if log == [] then 0 else Count(log[..|log| - 1], i) + if log[|log| - 1] == i then 1 else 0
  }

  /** How often place d behind the first has had its turn in c calls. */
  function Turns(c: nat, d: nat, n: nat): nat
    requires d < n
  {
    (c + n - 1 - d) / n
  }

  lemma TurnComes(c: nat, d: nat, n: nat)
    requires d < n
    ensures Turns(c + 1, d, n) == Turns(c, d, n) + if c % n == d then 1 else 0
  {
    var q, r := c / n, c % n;
    assert c == q * n + r;
    if r < d {
      DivModUnique(c + n - 1 - d, n, q, r + n - 1 - d);
      DivModUnique(c + n - d, n, q, r + n - d);
    } else if r == d {
      DivModUnique(c + n - 1 - d, n, q, n - 1);
      assert c + n - d == (q + 1) * n;
      DivModUnique(c + n - d, n, q + 1, 0);
    } else {
      assert c + n - 1 - d == (q + 1) * n + (r - 1 - d);
      DivModUnique(c + n - 1 - d, n, q + 1, r - 1 - d);
      DivModUnique(c + n - d, n, q + 1, r - d);
    }
  }

  lemma RoundIsOneTurn(c: nat, d: nat, n: nat)
    requires d < n
    ensures Turns(c + n, d, n) == Turns(c, d, n) + 1
  {
    var x := c + n - 1 - d;
    assert x == x / n * n + x % n;
    assert x + n == (x / n + 1) * n + x % n;
    DivModUnique(x + n, n, x / n + 1, x % n);
  }

  ghost function Behind(i: nat, base: nat, n: nat): (d: nat)
    requires i < n && base < n
    ensures d < n
  {
    if i >= base then i - base else i + n - base
  }

  /** Calls made in turn: place i has had exactly its turns. */
  lemma {:induction false} CountIsTurns(log: seq<nat>, base: nat, n: nat, i: nat)
    requires i < n && base < n && InTurn(log, base, n)
    ensures Count(log, i) == Turns(|log|, Behind(i, base, n), n)
  {
    var d := Behind(i, base, n);
    if log == [] {
      DivModUnique(n - 1 - d, n, 0, n - 1 - d);
    } else {
      var c := |log| - 1;
      CountIsTurns(log[..c], base, n, i);
      TurnComes(c, d, n);
      SamePlace(c, base, i, n);
    }
  }

  lemma SamePlace(c: nat, base: nat, i: nat, n: nat)
    requires i < n && base < n
    ensures (base + c) % n == i <==> c % n == Behind(i, base, n)
  {
    var q, r := c / n, c % n;
    assert c == q * n + r;
    if base + r < n {
      DivModUnique(base + c, n, q, base + r);
    } else {
      assert base + c == (q + 1) * n + (base + r - n);
      DivModUnique(base + c, n, q + 1, base + r - n);
    }
  }

  /** No object is ever more than one call ahead of another. */
  lemma Fair(log: seq<nat>, base: nat, n: nat, i: nat, j: nat)
    requires i < n && j < n && base < n && InTurn(log, base, n)
    ensures Count(log, i) <= Count(log, j) + 1
  {
    CountIsTurns(log, base, n, i);
    CountIsTurns(log, base, n, j);
    RoundIsOneTurn(|log|, Behind(j, base, n), n);
    DivMonotone(|log| + n - 1 - Behind(i, base, n), |log| + n + n - 1 - Behind(j, base, n), n);
  }

  /** What kTimeAll milliseconds bring: n more calls, one for each object. */
  lemma OncePerPeriod(was: seq<nat>, now: seq<nat>, base: nat, n: nat, all: nat, left: nat, left': nat, i: nat)
    requires all > 0 && base < n && i < n && Divides(n, all)
    requires InTurn(was, base, n) && InTurn(now, base, n)
    requires left < all / n && left' < all / n
    requires |now| * (all / n) + left' == |was| * (all / n) + left + all
    ensures |now| == |was| + n && Count(now, i) == Count(was, i) + 1
  {
    var one := all / n;
    assert all == one * n;
    assert |was| * one + one * n == (|was| + n) * one;
    DivModUnique(|now| * one + left', one, |now|, left');
    DivModUnique((|was| + n) * one + left, one, |was| + n, left);
    CountIsTurns(was, base, n, i);
    CountIsTurns(now, base, n, i);
    RoundIsOneTurn(|was|, Behind(i, base, n), n);
  }

  lemma NextInTurn(c: nat, base: nat, n: nat)
    requires base < n
    ensures Next((base + c) % n, n) == (base + c + 1) % n
  {
    var x := base + c;
    assert x == x / n * n + x % n;
    if x % n + 1 < n {
      DivModUnique(x + 1, n, x / n, x % n + 1);
    } else {
      assert x + 1 == (x / n + 1) * n;
      DivModUnique(x + 1, n, x / n + 1, 0);
    }
  }

  /** So many calls, each worth all / n, what is left and what has been lost are all the milliseconds. */
  ghost predicate Accounted(calls: nat, left: nat, lost: int, n: nat, all: nat, elapsed: nat) {
    n > 0 ==> calls * (all / n) + left + lost == elapsed
  }

  lemma BalanceAccounts(calls: nat, wait: nat, lost: int, n: nat, all: nat, elapsed: nat)
    requires n > 0 && all > 0 && Accounted(calls, wait, lost, n, all, elapsed)
    ensures RunNum(wait, n, all) != 0 ==>
              var k := CallsFor(wait, n, all);
              Accounted(calls + k, LeftOf(wait, n, all), lost + Loss(wait, n, all), n, all, elapsed)
  {
    hide RunNum, CallsFor, LeftOf;
    var k, one := CallsFor(wait, n, all), all / n;
    assert (calls + k) * one == calls * one + k * one;
  }

  /** What is left of wait milliseconds after a run: all when it makes no calls; otherwise less than a call's worth,
      which differs from wait by whole calls' worths, or nothing where there are more objects than milliseconds. */
  ghost predicate LeftAfter(left: nat, wait: nat, n: nat, all: nat)
    requires n > 0 && all > 0
  {
    if RunNum(wait, n, all) == 0 then left == wait
    else if n > all then left == 0
    else left < all / n && exists k: nat :: wait == k * (all / n) + left
  }

  lemma LeftIsLess(wait: nat, n: nat, all: nat)
    requires n > 0 && all > 0
    ensures LeftOf(wait, n, all) <= wait
    ensures LeftAfter(if RunNum(wait, n, all) == 0 then wait else LeftOf(wait, n, all), wait, n, all)
  {
    if n > all {
      DivModUnique(all, n, 0, all);
    } else {
      DivMonotone(n, all, n);
      Parts(wait, all / n);
    }
  }

  lemma AccountBegins(owed: nat, left: nat, n: nat, all: nat)
    requires n > 0
    ensures Accounted(owed, left, 0, n, all, owed * (all / n) + left)
  {
  }

  lemma TurnsBegin(base: nat, n: nat)
    requires base < n
    ensures InTurn([], base, n) && base == base % n
  {
    DivModUnique(base, n, 0, base);
  }

  class ServicePatch<T(==)> {
    const kTimeAll: nat
    const others: seq<T>
    var runPos: nat
    var timeWait: nat
    var aObj: seq<T>
    // since the objects last changed: the places called, the place called first, all milliseconds; calls still to make
    ghost var log: seq<nat>
    ghost var base: nat
    ghost var elapsed: nat
    ghost var owed: nat
    ghost var lost: int
    ghost var changes: nat

    /** The calls went round in turn, and, calls owed included, account for every millisecond. */
    ghost predicate Valid()
      reads this
    {
      && 0 < kTimeAll < UINT32 && timeWait < UINT32
      && InRange(runPos, |aObj|)
      && (aObj == [] ==> owed == 0)
      && (aObj != [] ==> base < |aObj| && InTurn(log, base, |aObj|) && runPos == (base + |log|) % |aObj|)
      && (aObj != [] ==> Accounted(|log| + owed, timeWait, lost, |aObj|, kTimeAll, elapsed))
    }

    ghost predicate Exact()
      reads this
      requires aObj != []
    {
      Divides(|aObj|, kTimeAll)
    }

    /** others are objects that callbacks may register. */
    constructor (timeAll: nat, others: seq<T>)
      requires 0 < timeAll < UINT32
      ensures Valid() && this.others == others && kTimeAll == timeAll && aObj == [] && timeWait == 0 && owed == 0
    {
      kTimeAll, this.others := timeAll, others;
      runPos, timeWait, aObj := 0, 0, [];
      log, base, elapsed, owed, lost, changes := [], 0, 0, 0, 0, 0;
    }

    ghost method Restart()
      requires 0 < kTimeAll < UINT32 && timeWait < UINT32 && InRange(runPos, |aObj|) && (aObj == [] ==> owed == 0)
      modifies this`log, this`base, this`elapsed, this`lost, this`changes
      ensures Valid() && log == [] && changes == old(changes) + 1
    {
      hide Divides, InTurn, Accounted;
      log, base, lost, changes := [], runPos, 0, changes + 1;
      elapsed := if aObj == [] then 0 else owed * (kTimeAll / |aObj|) + timeWait;
      if aObj != [] {
        TurnsBegin(runPos, |aObj|);
        AccountBegins(owed, timeWait, |aObj|, kTimeAll);
      }
    }

    method Register(obj: T)
      requires Valid()
      modifies this`aObj, this`log, this`base, this`elapsed, this`lost, this`changes
      ensures Valid() && aObj == old(aObj) + [obj] && changes > old(changes)
    {
      aObj := aObj + [obj];
      Restart();
    }

    /** The first such object goes; the others, read from the cursor, stay in their order. */
    method UnRegister(obj: T)
      requires Valid() && (|aObj| == 1 ==> owed == 0)
      modifies this`aObj, this`runPos, this`log, this`base, this`elapsed, this`lost, this`changes
      ensures Valid() && (old(aObj) != [] && owed > 0 ==> aObj != [])
      ensures obj !in old(aObj) ==>
                aObj == old(aObj) && runPos == old(runPos) && log == old(log) && changes == old(changes)
      ensures forall i: nat | IsFirst(old(aObj), obj, i) ::
                aObj == Without(old(aObj), i) && changes > old(changes)
                && Rot(aObj, runPos)
                   == Without(Rot(old(aObj), old(runPos)), PlaceInReading(i, old(runPos), |old(aObj)|))
    {
      hide InTurn, Divides, Rot, Without;
      for i := 0 to |aObj|
        invariant aObj == old(aObj) && runPos == old(runPos) && log == old(log) && changes == old(changes) && Valid()
        invariant forall k | 0 <= k < i :: aObj[k] != obj
      {
        if aObj[i] == obj {
          assert forall j: nat | j < i :: aObj[..i][j] != obj;
          assert forall j: nat | IsFirst(aObj, obj, j) :: j == i;
          Erase(i);
          return;
        }
      }
    }

    method Erase(i: nat)
      requires Valid() && i < |aObj| && (|aObj| == 1 ==> owed == 0)
      modifies this`aObj, this`runPos, this`log, this`base, this`elapsed, this`lost, this`changes
      ensures Valid() && aObj == Without(old(aObj), i) && changes > old(changes)
      ensures Rot(aObj, runPos) == Without(Rot(old(aObj), old(runPos)), PlaceInReading(i, old(runPos), |old(aObj)|))
    {
      EraseKeepsReading(aObj, runPos, i);
      aObj := Without(aObj, i);
      if i < runPos {
        runPos := runPos - 1;
      } else if runPos >= |aObj| {
        runPos := 0;
      }
      Restart();
    }

    /** The function called: it may unregister all objects but the last, and register others. */
    method Func(obj: T)
      requires Valid() && log != [] && log[|log| - 1] < |aObj| && obj == aObj[log[|log| - 1]]
      modifies this`aObj, this`runPos, this`log, this`base, this`elapsed, this`lost, this`changes
      ensures Valid() && aObj != [] && changes >= old(changes)
      ensures changes == old(changes) ==>
                (aObj == old(aObj) && runPos == old(runPos) && log == old(log) && base == old(base)
                 && elapsed == old(elapsed) && lost == old(lost))
    {
      var n: int := *;
      while n > 0
        invariant Valid() && aObj != [] && changes >= old(changes)
        invariant changes == old(changes) ==>
                    (aObj == old(aObj) && runPos == old(runPos) && log == old(log) && base == old(base)
                 && elapsed == old(elapsed) && lost == old(lost))
      {
        var i: int := *;
        var add: bool := *;
        if add && 0 <= i < |others| {
          Register(others[i]);
        } else if 0 <= i < |aObj| && |aObj| > 1 {
          FirstPlace(aObj, aObj[i]);
          UnRegister(aObj[i]);
        }
        n := n - 1;
      }
    }

    static lemma {:induction false} FirstPlace(s: seq<T>, o: T)
      requires o in s
      ensures exists i: nat :: IsFirst(s, o, i)
    {
      var k := |s| - 1;
      if o in s[..k] {
        FirstPlace(s[..k], o);
        var i: nat :| IsFirst(s[..k], o, i);
        assert IsFirst(s, o, i);
      } else {
        assert forall j | 0 <= j < k :: s[..k][j] != o;
        assert IsFirst(s, o, k);
      }
    }

    /** Whether a run after time_elapse more milliseconds counts them all. */
    ghost predicate Counts(time_elapse: nat)
      reads this
      requires kTimeAll > 0
    {
      && timeWait + time_elapse < UINT32
      && (NoOverflow(timeWait + time_elapse, |aObj|, kTimeAll) || RunNum(timeWait + time_elapse, |aObj|, kTimeAll) == 0)
    }

    /** Without a change of the objects, all milliseconds so far are exactly the calls made, each worth kTimeAll / n,
        the time left over, and what has been lost. If n divides kTimeAll, a run loses none just when its sum and its
        product do not overflow, and when they do not, the time left over is less than a call's worth. */
    method RunSevice(time_elapse: nat)
      requires Valid() && owed == 0 && time_elapse < UINT32
      modifies this`runPos, this`timeWait, this`aObj
      modifies this`log, this`base, this`elapsed, this`lost, this`owed, this`changes
      ensures Valid() && owed == 0
      ensures old(aObj) != [] && changes == old(changes) ==>
                && aObj == old(aObj) && base == old(base) && old(log) <= log && elapsed == old(elapsed) + time_elapse
                && |log| == |old(log)| + CallsFor(Uint32(old(timeWait) + time_elapse), |aObj|, kTimeAll)
                && |log| * (kTimeAll / |aObj|) + timeWait + lost == elapsed
                && LeftAfter(timeWait, Uint32(old(timeWait) + time_elapse), |aObj|, kTimeAll)
      ensures old(aObj) != [] && changes == old(changes) && Exact() ==>
                && lost >= old(lost) && (lost == old(lost) <==> old(Counts(time_elapse)))
                && (old(timeWait + time_elapse < UINT32 && NoOverflow(timeWait + time_elapse, |aObj|, kTimeAll)) ==>
                      timeWait < kTimeAll / |aObj|)
      ensures old(aObj) == [] ==> aObj == [] && timeWait == old(timeWait) && log == old(log)
    {
      hide InTurn, Divides, RunNum, Loss, LeftOf, LeftAfter, NoOverflow;
      if |aObj| <= 0 { return; }
      var runNum := Balance(time_elapse);
      if runNum == 0 { return; }
      ghost var after, left := lost, timeWait;
      var i := 0;
      while i < runNum
        invariant 0 <= i && (i <= runNum || i == 0)
        invariant Valid() && owed == (if runNum > i then runNum - i else 0) && aObj != [] && changes >= old(changes)
        invariant changes == old(changes) ==>
                    && aObj == old(aObj) && base == old(base) && old(log) <= log && |log| == |old(log)| + i
                    && elapsed == old(elapsed) + time_elapse && lost == after
                    && timeWait == left
      {
        CallNext();
        i := i + 1;
      }
    }

    /** How many calls are due, and what is left of the time waited. */
    method Balance(time_elapse: nat) returns (runNum: int)
      requires Valid() && owed == 0 && aObj != [] && time_elapse < UINT32
      modifies this`timeWait, this`elapsed, this`lost, this`owed
      ensures Valid() && runNum == RunNum(Uint32(old(timeWait) + time_elapse), |aObj|, kTimeAll)
      ensures owed == CallsFor(Uint32(old(timeWait) + time_elapse), |aObj|, kTimeAll)
      ensures elapsed == old(elapsed) + time_elapse
      ensures LeftAfter(timeWait, Uint32(old(timeWait) + time_elapse), |aObj|, kTimeAll)
      ensures Exact() ==> lost >= old(lost) && (lost == old(lost) <==> old(Counts(time_elapse)))
      ensures var sum := old(timeWait) + time_elapse;
              Exact() && sum < UINT32 && NoOverflow(sum, |aObj|, kTimeAll) ==> timeWait < kTimeAll / |aObj|
    {
      hide InTurn, Divides, NoOverflow, Loss;
      ghost var sum := timeWait + time_elapse;
      timeWait := Uint32(timeWait + time_elapse);
      elapsed := elapsed + time_elapse;
      lost := lost + (sum - timeWait);
      ghost var wait := timeWait;
      LeftIsLess(timeWait, |aObj|, kTimeAll);
      hide LeftAfter;
      BalanceAccounts(|log|, timeWait, lost, |aObj|, kTimeAll, elapsed);
      if Exact() {
        RunLoses(sum, |aObj|, kTimeAll);
      }
      var q := Uint32(timeWait * |aObj|) / kTimeAll;
      runNum := if q < UINT32 / 2 then q else q - UINT32;
      hide RunNum, CallsFor, Uint32;
      if runNum == 0 { return; }
      var temp := kTimeAll / |aObj|;
      timeWait := if temp != 0 then timeWait % temp else 0;
      hide LeftOf, Accounted;
      owed := CallsFor(wait, |aObj|, kTimeAll);
      lost := lost + Loss(wait, |aObj|, kTimeAll);
    }

    /** The object under the cursor is called, after the cursor has moved on. */
    method CallNext()
      requires Valid() && owed > 0
      modifies this`runPos, this`aObj, this`log, this`base, this`elapsed, this`lost, this`owed, this`changes
      ensures Valid() && aObj != [] && owed == old(owed) - 1 && changes >= old(changes)
      ensures changes == old(changes) ==>
                && aObj == old(aObj) && base == old(base) && elapsed == old(elapsed) && lost == old(lost)
                && log == old(log) + [old(runPos)]
    {
      NextInTurn(|log|, base, |aObj|);
      var it := aObj[runPos];
      log, owed := log + [runPos], owed - 1;
      runPos := runPos + 1;
      if runPos >= |aObj| {
        runPos := 0;
      }
      Func(it);
    }
  }
}
