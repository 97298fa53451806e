/** Nodes of one slot keep the order in which they were filed. */
module WheelOrder {
  import opened Common
  import opened WheelLayout
  import opened WheelModel
  import opened WheelProofs
  import opened WheelSweeps
  import opened WheelTheorems

  ghost predicate Before<T>(q: seq<T>, a: T, b: T) {
    exists i, j :: 0 <= i < j < |q| && q[i] == a && q[j] == b
  }

  lemma BeforeInLonger<T>(q: seq<T>, r: seq<T>, a: T, b: T)
    requires Before(q, a, b) && q <= r
    ensures Before(r, a, b)
  {
    var i, j :| 0 <= i < j < |q| && q[i] == a && q[j] == b;
    assert r[i] == a && r[j] == b;
  }

  lemma BeforeWithout<T>(q: seq<T>, n: T, a: T, b: T)
    requires Before(q, a, b) && n in q && n != a && n != b
    ensures Before(Without(q, n), a, b)
  {
    var i, j :| 0 <= i < j < |q| && q[i] == a && q[j] == b;
    var k := IndexOf(q, n);
    var i', j' := if i < k then i else i - 1, if j < k then j else j - 1;
    WithoutAt(q, n, i');
    WithoutAt(q, n, j');
    assert Without(q, n)[i'] == a && Without(q, n)[j'] == b;
  }

  // ----- one sweep -----

  /** Those of ns that the sweep of wheel l puts into ring q, in the order of ns. */
  ghost function Bound<T>(d: Dial, l: nat, timers: map<T, Timer>, ns: seq<T>, q: Place): (bs: seq<T>)
    requires HasWheels(d) && forall n | n in ns :: n in timers
    ensures l == 0 && q == Ready ==> bs == ns
  {
    if ns == [] then []
    else (if SettlePlace(d, l, timers[ns[0]]) == q then [ns[0]] else []) + Bound(d, l, timers, ns[1..], q)
  }

  lemma {:induction false} SameBound<T>(d: Dial, l: nat, timers: map<T, Timer>, more: map<T, Timer>, ns: seq<T>,
                                        q: Place)
    requires HasWheels(d) && forall n | n in ns :: n in timers && n in more && SameFields(timers[n], more[n])
    ensures Bound(d, l, timers, ns, q) == Bound(d, l, more, ns, q)
  {
    if ns != [] {
      SameBound(d, l, timers, more, ns[1..], q);
    }
  }

  /** The loop over the cut-off chain puts its nodes behind those already there, ring by ring in the order of the
      chain. */
  lemma {:induction false} SettleAllInOrder<T>(s: State<T>, l: nat, q: Place)
    requires Conserved(s) && HasWheels(s.dial) && q != Moving
    ensures forall n | n in s.At(Moving) :: n in s.timers
    ensures SettleAll(s, l).At(q) == s.At(q) + Bound(s.dial, l, s.timers, s.At(Moving), q)
    decreases |s.At(Moving)|
  {
    MembersAreTimers(s, Moving);
    if s.At(Moving) != [] {
      var n, r := s.At(Moving)[0], SettleHead(s, l);
      assert SettleAll(s, l) == SettleAll(r, l);
      hide SettleHead, SettlePlace, Conserved, SettleAll, HasWheels;
      SettleAllInOrder(r, l, q);
      SettleHeadInOrder(s, l, q);
      SameBound(s.dial, l, s.timers, r.timers, r.At(Moving), q);
      BoundOfFirst(s.dial, l, s.timers, s.At(Moving), q);
      hide Bound;
      Associates(s.At(q), if SettlePlace(s.dial, l, s.timers[n]) == q then [n] else [],
                 Bound(s.dial, l, s.timers, r.At(Moving), q));
    }
  }

  lemma MembersAreTimers<T>(s: State<T>, p: Place)
    requires Conserved(s)
    ensures forall n | n in s.At(p) :: n in s.timers
  {
    assert Holds(s, p);
  }

  lemma BoundOfFirst<T>(d: Dial, l: nat, timers: map<T, Timer>, ns: seq<T>, q: Place)
    requires HasWheels(d) && ns != [] && forall n | n in ns :: n in timers
    ensures Bound(d, l, timers, ns, q)
            == (if SettlePlace(d, l, timers[ns[0]]) == q then [ns[0]] else []) + Bound(d, l, timers, ns[1..], q)
  {
  }

  lemma Associates<T>(a: seq<T>, b: seq<T>, c: seq<T>)
    ensures a + b + c == a + (b + c)
  {
  }

  lemma SettleHeadInOrder<T>(s: State<T>, l: nat, q: Place)
    requires Conserved(s) && HasWheels(s.dial) && s.At(Moving) != [] && q != Moving
    ensures var n, r := s.At(Moving)[0], SettleHead(s, l);
            && n in s.timers && r.At(q) == s.At(q) + (if SettlePlace(s.dial, l, s.timers[n]) == q then [n] else [])
            && (forall x | x in r.At(Moving) :: x in s.timers && x in r.timers && SameFields(s.timers[x], r.timers[x]))
  {
    assert Holds(s, Moving) && Holds(SettleHead(s, l), Moving);
  }

  /** So does the sweep of a slot, for every ring but that slot. */
  lemma SweepSlotInOrder<T>(s: State<T>, l: nat, d: Dial, q: Place)
    requires Conserved(s) && s.At(Moving) == [] && HasWheels(s.dial) && HasWheels(d) && l < WHEEL_NUM
    requires q != Moving && q != Slot(l, s.dial.slotIdx[l])
    ensures forall n | n in s.At(Slot(l, s.dial.slotIdx[l])) :: n in s.timers
    ensures SweepSlot(s, l, d).At(q) == s.At(q) + Bound(d, l, s.timers, s.At(Slot(l, s.dial.slotIdx[l])), q)
  {
    var p := Slot(l, s.dial.slotIdx[l]);
    var c := CutOff(s, p);
    var c' := c.(dial := d);
    SameRings(c, c');
    assert Holds(s, p) && SweepSlot(s, l, d) == SettleAll(c', l);
    SettleAllInOrder(c', l, q);
    SameBound(d, l, c'.timers, s.timers, s.At(p), q);
  }

  // ----- one tick -----

  /** A ring that the cascade does not sweep. */
  ghost predicate Stays(d: Dial, q: Place, tick: nat) {
    q == Ready || (q.Slot? && IsPlace(q) && Aligned(d) && NextSweep(d, q.level, q.idx) != tick)
  }

  ghost predicate SameSweep(d: Dial, e: Dial, q: Place) {
    q.Slot? && IsPlace(q) && Aligned(d) ==> Aligned(e) && NextSweep(e, q.level, q.idx) == NextSweep(d, q.level, q.idx)
  }

  /** One wheel of a cascade. */
  lemma CascadeWheelAppends<T>(s: State<T>, l: nat, q: Place) returns (r: State<T>)
    requires CascadePoint(s, l) && l < WHEEL_NUM && Stays(s.dial, q, s.dial.ticks)
    ensures CascadeStepped(s, l, r) && HasWheels(r.dial) && s.At(q) <= r.At(q)
    ensures Stays(r.dial, q, r.dial.ticks) && SameSweep(s.dial, r.dial, q)
  {
    var d := Advance(s.dial, l);
    r := SweepSlot(s, l, d);
    CascadeReaches(s.dial, l);
    CascadeGoesOn(d, l + 1);
    CurrentSlotIsNow(s.dial, l);
    SweepSlotInOrder(s, l, d, q);
    if q.Slot? {
      OtherSlotsWait(s.dial, l, q);
    }
  }

  /** It only grows, at its end. */
  lemma {:induction false} CascadeAppends<T>(s: State<T>, l: nat, q: Place)
    requires CascadePoint(s, l) && Stays(s.dial, q, s.dial.ticks)
    ensures s.At(q) <= Cascade(s, l).At(q) && SameSweep(s.dial, Cascade(s, l).dial, q)
    decreases WHEEL_NUM - l
  {
    hide CascadePoint, Stays, NextSweep, Advance, SweepSlot, Aligned;
    if l < WHEEL_NUM {
      var r := CascadeWheelAppends(s, l, q);
      if r.dial.slotIdx[l] == 0 {
        CascadeAppends(r, l + 1, q);
      }
    }
  }

  lemma TickAppends<T>(s: State<T>, q: Place)
    requires Conserved(s) && s.At(Moving) == [] && Exact(s.dial) && Stays(s.dial, q, s.dial.ticks + 1)
    ensures s.At(q) <= Tick(s).At(q) && SameSweep(s.dial, Tick(s).dial, q)
  {
    var e := Advance(s.dial, 0).(ticks := s.dial.ticks + 1);
    TickStep(s, e);
    ExactIsAligned(Tick(s).dial);
    if q.Slot? {
      TickCounted(s.dial, e, q);
    }
    hide Conserved, Exact, Tick, Swept;
    SweepSlotInOrder(s, 0, e, q);
    if e.slotIdx[0] == 0 {
      CascadeAppends(SweepSlot(s, 0, e), 1, q);
    }
  }

  /** The nodes of the current slot of the finest wheel go behind those already ready, in their order. */
  lemma TickReadies<T>(s: State<T>)
    requires Conserved(s) && s.At(Moving) == [] && Exact(s.dial)
    ensures s.At(Ready) + s.At(Slot(0, s.dial.slotIdx[0])) <= Tick(s).At(Ready)
  {
    var e := Advance(s.dial, 0).(ticks := s.dial.ticks + 1);
    TickStep(s, e);
    SweepSlotInOrder(s, 0, e, Ready);
    if e.slotIdx[0] == 0 {
      CascadeAppends(SweepSlot(s, 0, e), 1, Ready);
    }
  }

  // ----- any number of ticks -----

  lemma {:induction false} TicksAppend<T>(s: State<T>, k: nat, q: Place)
    requires Conserved(s) && s.At(Moving) == [] && Exact(s.dial) && Stays(s.dial, q, s.dial.ticks)
    requires q.Slot? ==> s.dial.ticks + k < NextSweep(s.dial, q.level, q.idx)
    ensures s.At(q) <= Ticks(s, k).At(q) && SameSweep(s.dial, Ticks(s, k).dial, q)
  {
    hide Tick;
    if k > 0 {
      TicksAppend(s, k - 1, q);
      TickAppends(Ticks(s, k - 1), q);
    }
  }

  /** Two nodes of one slot of the finest wheel stay in their order until the tick that sweeps it, which puts them on
      the ready list in that order, and there they keep it. */
  lemma {:induction false} TicksKeepOrder<T>(s: State<T>, k: nat, i: nat, a: T, b: T)
    requires Conserved(s) && s.At(Moving) == [] && Exact(s.dial) && i < Size(0) && Before(s.At(Slot(0, i)), a, b)
    ensures Aligned(s.dial)
    ensures s.dial.ticks + k < NextSweep(s.dial, 0, i) ==>
              Before(Ticks(s, k).At(Slot(0, i)), a, b) && SameSweep(s.dial, Ticks(s, k).dial, Slot(0, i))
    ensures s.dial.ticks + k >= NextSweep(s.dial, 0, i) ==> Before(Ticks(s, k).At(Ready), a, b)
  {
    hide Tick;
    var p := Slot(0, i);
    SweptLater(s.dial, 0, i);
    if k > 0 {
      TicksKeepOrder(s, k - 1, i, a, b);
      var r := Ticks(s, k - 1);
      if r.dial.ticks >= NextSweep(s.dial, 0, i) {
        TickAppends(r, Ready);
        BeforeInLonger(r.At(Ready), Tick(r).At(Ready), a, b);
      } else if r.dial.ticks + 1 == NextSweep(s.dial, 0, i) {
        TickCounted(r.dial, Advance(r.dial, 0).(ticks := r.dial.ticks + 1), p);
        TickReadies(r);
        BeforeBehind(r.At(Ready), r.At(p), a, b);
        BeforeInLonger(r.At(Ready) + r.At(p), Tick(r).At(Ready), a, b);
      } else {
        TickAppends(r, p);
        BeforeInLonger(r.At(p), Tick(r).At(p), a, b);
      }
    }
  }

  lemma BeforeBehind<T>(q: seq<T>, r: seq<T>, a: T, b: T)
    requires Before(r, a, b)
    ensures Before(q + r, a, b)
  {
    var i, j :| 0 <= i < j < |r| && r[i] == a && r[j] == b;
    assert (q + r)[|q| + i] == a && (q + r)[|q| + j] == b;
  }

  // ----- every event -----

  /** An event that leaves the ring alone, or its other nodes: a Refresh does when it ends before the ring is swept. */
  ghost predicate Leaves<T>(s: State<T>, e: Event<T>, q: Place)
    requires Legal(s, e)
  {
    && (q == Ready || (q.Slot? && IsPlace(q) && Aligned(s.dial)))
    && (e.Refresh? && q.Slot? ==>
          s.dial.ticks + TicksIn(Counter(s.dial, e.elapse)) < NextSweep(s.dial, q.level, q.idx))
  }

  /** Two nodes of one ring that an event leaves there stay in their order. */
  lemma EventKeepsOrder<T>(s: State<T>, e: Event<T>, q: Place, a: T, b: T)
    requires Boundary(s) && Legal(s, e) && Leaves(s, e, q) && Before(s.At(q), a, b)
    requires e != Del(a) && e != Del(b) && !(e.Fire? && q == Ready && a == s.At(Ready)[0])
    ensures Before(Apply(s, e).At(q), a, b)
  {
    match e
    case Add(n, delay, clock) => BeforeInLonger(s.At(q), Apply(s, e).At(q), a, b);
    case Del(n) =>
      assert Listed(s, n);
      if s.timers[n].place == q { BeforeWithout(s.At(q), n, a, b); }
    case Refresh(elapse) =>
      var r := s.(dial := Started(s.dial, elapse));
      SameRings(s, r);
      SameCount(s.dial, r.dial);
      if q.Slot? { SweptLater(s.dial, q.level, q.idx); }
      TicksAppend(r, TicksIn(Counter(s.dial, elapse)), q);
      BeforeInLonger(s.At(q), Apply(s, e).At(q), a, b);
    case Fire => FireKeepsOrder(s, q, a, b);
    case Return(again) => ReturnKeepsOrder(s, again, q, a, b);
  }

  lemma FireKeepsOrder<T>(s: State<T>, q: Place, a: T, b: T)
    requires Boundary(s) && Legal(s, Event<T>.Fire) && Before(s.At(q), a, b) && (q == Ready || q.Slot?)
    requires q == Ready ==> a != s.At(Ready)[0]
    ensures Before(FireNext(s).At(q), a, b)
  {
    var n := s.At(Ready)[0];
    assert Holds(s, Ready);
    if q == Ready {
      assert b != n by {
        var i, j :| 0 <= i < j < |s.At(q)| && s.At(q)[i] == a && s.At(q)[j] == b;
      }
      BeforeWithout(s.At(q), n, a, b);
    }
  }

  lemma ReturnKeepsOrder<T>(s: State<T>, again: int, q: Place, a: T, b: T)
    requires Boundary(s) && Legal(s, Event<T>.Return(again)) && Before(s.At(q), a, b) && (q == Ready || q.Slot?)
    ensures Before(Returned(s, again).At(q), a, b)
  {
    assert Holds(s, Running);
    BeforeInLonger(s.At(q), Returned(s, again).At(q), a, b);
  }

  // ----- leaving the ready list -----

  /** A ready timer is called, or deleted by a callback. */
  ghost predicate Departs<T>(s: State<T>, e: Event<T>, n: T) {
    n in s.At(Ready) && (e == Del(n) || (e.Fire? && n == s.At(Ready)[0]))
  }

  lemma ReadyStep<T>(s: State<T>, e: Event<T>, r: State<T>, n: T)
    requires Step(s, e, r) && !e.Refresh?
    ensures n in r.At(Ready) <==> n in s.At(Ready) && !Departs(s, e, n)
  {
    assert Holds(s, Ready) && Holds(s, Running);
    if (e.Fire? || e.Del?) && s.At(Ready) != [] {
      var m := if e.Fire? then s.At(Ready)[0] else e.node;
      if m in s.At(Ready) {
        WithoutKeepsTheRest(s.At(Ready), m);
      }
    }
  }

  /** How often n is called or deleted by events k to m - 1 while it is ready. */
  ghost function Departures<T>(ss: seq<State<T>>, es: seq<Event<T>>, k: nat, m: nat, n: T): nat
    requires k <= m <= |es| < |ss|
  {
    if m == k then 0 else Departures(ss, es, k, m - 1, n) + if Departs(ss[m - 1], es[m - 1], n) then 1 else 0
  }

  ghost function Times(b: bool): nat { if b then 1 else 0 }

  /** Without a Refresh nothing becomes ready, and a timer that no longer is has been called or deleted just once. */
  lemma {:induction false} ReadyDepartOnce<T>(ss: seq<State<T>>, es: seq<Event<T>>, k: nat, m: nat, n: T)
    requires Run(ss, es) && k <= m <= |es| && forall i {:trigger es[i]} | k <= i < m :: !es[i].Refresh?
    ensures Departures(ss, es, k, m, n) + Times(n in ss[m].At(Ready)) == Times(n in ss[k].At(Ready))
  {
    hide Step, Departs;
    if m > k {
      ReadyDepartOnce(ss, es, k, m - 1, n);
      assert Step(ss[m - 1], es[m - 1], ss[m]);
      ReadyStep(ss[m - 1], es[m - 1], ss[m], n);
      DepartsIsReady(ss[m - 1], es[m - 1], n);
    }
  }

  lemma DepartsIsReady<T>(s: State<T>, e: Event<T>, n: T)
    ensures Departs(s, e, n) ==> n in s.At(Ready)
  {
  }

  // ----- every run -----

  /** Waiting in slot p, a in front of b; or ready, a in front of b; or a being called and b ready. */
  ghost predicate Queued<T>(s: State<T>, p: Place, a: T, b: T) {
    || Before(s.At(p), a, b)
    || Before(s.At(Ready), a, b)
    || (s.At(Running) == [a] && b in s.At(Ready))
  }

  lemma StepKeepsQueued<T>(s: State<T>, e: Event<T>, r: State<T>, p: Place, a: T, b: T)
    requires Step(s, e, r) && p.Slot? && p.level == 0 && IsPlace(p) && Queued(s, p, a, b)
    requires a in s.timers && b in s.timers && !Ends(s, e, a) && !Ends(s, e, b)
    ensures Queued(r, p, a, b)
  {
    assert Holds(s, p) && Holds(s, Ready) && Holds(s, Running);
    if Before(s.At(p), a, b) {
      if e.Refresh? {
        RefreshKeepsQueued(s, e.elapse, p, a, b);
      } else {
        ExactIsAligned(s.dial);
        EventKeepsOrder(s, e, p, a, b);
      }
    } else if Before(s.At(Ready), a, b) {
      if e.Fire? && a == s.At(Ready)[0] {
        FiresInOrder(s, a, b);
      } else {
        EventKeepsOrder(s, e, Ready, a, b);
      }
    } else {
      RunningStays(s, e, a, b);
    }
  }

  lemma RefreshKeepsQueued<T>(s: State<T>, elapse: nat, p: Place, a: T, b: T)
    requires Boundary(s) && Legal(s, Event<T>.Refresh(elapse)) && p.Slot? && p.level == 0 && IsPlace(p)
    requires Before(s.At(p), a, b)
    ensures Queued(SweepTicks(s, elapse), p, a, b)
  {
    var r := s.(dial := Started(s.dial, elapse));
    SameRings(s, r);
    SameCount(s.dial, r.dial);
    TicksKeepOrder(r, TicksIn(Counter(s.dial, elapse)), p.idx, a, b);
  }

  lemma FiresInOrder<T>(s: State<T>, a: T, b: T)
    requires Boundary(s) && Legal(s, Event<T>.Fire) && Before(s.At(Ready), a, b) && a == s.At(Ready)[0]
    ensures FireNext(s).At(Running) == [a] && b in FireNext(s).At(Ready)
  {
    assert Holds(s, Ready);
    var i, j :| 0 <= i < j < |s.At(Ready)| && s.At(Ready)[i] == a && s.At(Ready)[j] == b;
    WithoutKeepsTheRest(s.At(Ready), a);
  }

  lemma RunningStays<T>(s: State<T>, e: Event<T>, a: T, b: T)
    requires Boundary(s) && Legal(s, e) && s.At(Running) == [a] && b in s.At(Ready)
    requires a in s.timers && b in s.timers && !Ends(s, e, a) && !Ends(s, e, b)
    ensures Apply(s, e).At(Running) == [a] && b in Apply(s, e).At(Ready)
  {
    assert Holds(s, Running) && Holds(s, Ready);
    assert s.At(Running)[0] == a;
    if e.Del? && s.timers[e.node].place == Ready {
      assert Listed(s, e.node);
      WithoutKeepsTheRest(s.At(Ready), e.node);
    }
  }

  /** Two timers of one slot of the finest wheel become ready, and are called, in the order in which they were filed: as
      long as neither is deleted or has been called, they wait in that order, there or on the ready list. */
  lemma {:induction false} CalledInFiledOrder<T>(ss: seq<State<T>>, es: seq<Event<T>>, p: Place, a: T, b: T)
    requires Run(ss, es) && Lasts(ss, es, a) && Lasts(ss, es, b)
    requires p.Slot? && p.level == 0 && IsPlace(p) && Before(ss[0].At(p), a, b)
    ensures Queued(Last(ss), p, a, b)
    decreases |es|
  {
    hide Step, Ends, Before;
    if es != [] {
      var k := |es| - 1;
      LastsBefore(ss, es, a);
      LastsBefore(ss, es, b);
      CalledInFiledOrder(ss[..|ss| - 1], es[..k], p, a, b);
      assert Step(ss[k], es[k], ss[k + 1]);
      StepKeepsQueued(ss[k], es[k], ss[k + 1], p, a, b);
    }
  }
}
