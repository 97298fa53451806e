/** Why a timer can be early when clock readings are ahead of the Refresh after them. */
module WheelAhead {
  import opened Common
  import opened WheelLayout
  import opened WheelModel
  import opened WheelProofs
  import opened WheelSweeps
  import opened WheelTheorems

  const TOP: nat := WHEEL_NUM - 1

  /** A timer in the coarsest wheel whose time left, cut to 32 bits, is less than a tick. */
  ghost predicate Cut(d: Dial, t: Timer) {
    t.place.Slot? && t.place.level == TOP && IsPlace(t.place) && t.when > d.now && Uint32(t.when - d.now) < TICK_LEN
  }

  /** The cascade that sweeps its slot puts it into the current slot of the finest wheel. */
  lemma {:induction false} CutIsRefiled<T>(s: State<T>, l: nat, n: T, t: Timer)
    requires CascadePoint(s, l) && l <= TOP && n in s.timers && s.timers[n] == t && Cut(s.dial, t)
    requires 0 < l && s.dial.slotIdx[0] < Size(0) && Aligned(s.dial)
    requires NextSweep(s.dial, TOP, t.place.idx) == s.dial.ticks
    ensures n in Cascade(s, l).timers
    ensures Cascade(s, l).timers[n] == t.(place := Slot(0, s.dial.slotIdx[0]))
    ensures Cascade(s, l).dial.slotIdx[0] == s.dial.slotIdx[0]
    decreases WHEEL_NUM - l
  {
    var d := Advance(s.dial, l);
    var r := SweepSlot(s, l, d);
    CascadeStep(s, l, n, t.place);
    SweepSlotMoves(s, l, d, n, t);
    if t.place != Slot(l, s.dial.slotIdx[l]) {
      OtherSlotsWait(s.dial, l, t.place);
      if r.dial.slotIdx[l] == 0 {
        CutIsRefiled(r, l + 1, n, t);
      } else {
        SweptLater(r.dial, TOP, t.place.idx);
      }
    }
  }

  lemma CutIsNext<T>(s: State<T>, n: T, t: Timer)
    requires Waits(s, n, t, s.dial.ticks + 1) && Cut(s.dial, t)
    ensures n in Tick(s).timers && Tick(s).timers[n] == t.(place := Slot(0, Tick(s).dial.slotIdx[0]))
  {
    var e := Advance(s.dial, 0).(ticks := s.dial.ticks + 1);
    TickStep(s, e);
    TickCounted(s.dial, e, t.place);
    SweepSlotMoves(s, 0, e, n, t);
    if e.slotIdx[0] == 0 {
      CutIsRefiled(SweepSlot(s, 0, e), 1, n, t);
    } else {
      SweptLater(e, TOP, t.place.idx);
    }
  }

  /** So it is ready a tick after its slot was swept. */
  lemma CutIsReady<T>(s: State<T>, n: T, t: Timer, k: nat)
    requires Waits(s, n, t, s.dial.ticks + k) && k > 0 && Cut(s.dial, t)
    ensures n in Ticks(s, k + 1).timers && Ticks(s, k + 1).timers[n].place == Ready
  {
    hide Tick;
    WaitsForItsSweep(s, n, t, s.dial.ticks + k, k - 1);
    CutIsNext(Ticks(s, k - 1), n, t);
    var r := Ticks(s, k);
    ExactIsAligned(r.dial);
    assert AlignedAt(r.dial, 0);
    TickCounted(r.dial, Advance(r.dial, 0).(ticks := r.dial.ticks + 1), r.timers[n].place);
    TickTakes(r, n, r.timers[n].place);
  }

  // ----- the input -----

  const START: nat := 0x3FF_FFFF
  const GAP: nat := Millis(0x400_0002)

  /** A wheel one tick before a turn of all but the coarsest wheel. */
  ghost function BeforeTurn<T>(): (s: State<T>)
    ensures IsNew(s) && s.timers == map[] && s.Idle() && Exact(s.dial)
    ensures s.dial.ticks == START && s.dial.rem == s.dial.now == s.dial.clock == s.dial.ahead == s.dial.maxDelay == 0
    ensures s.dial.maxElapse == 0 && s.dial.slotIdx[TOP] == 0
  {
    var d := Dial([0xFF, 0x3F, 0x3F, 0x3F, 0], 0, [START, 0x3_FFFF, 0xFFF, 0x3F, 0], START, -Millis(START), 0, 0, 0, 0,
                  0, 0);
    var s := State<T>.State(d, map[], map[]);
    assert Boundary(s) by {
      forall p ensures Holds(s, p) {}
      forall l | 0 <= l < WHEEL_NUM ensures CountsTo(d, l, d.ticks) {}
    }
    s
  }

  /** A timer for the longest delay, added when the clock reads 1 ms more than the Refresh 19 days on, is ready after
      that Refresh. */
  lemma EarlyWhenAhead<T>(n: T) returns (ss: seq<State<T>>, es: seq<Event<T>>)
    ensures Run(ss, es) && IsNew(ss[0]) && es == [Add(n, UINT32 - 1, GAP + 1), Event<T>.Refresh(GAP)]
    ensures n in Last(ss).timers && Last(ss).timers[n].place == Ready && Last(ss).dial.ahead == 1
    ensures Last(ss).dial.now < Last(ss).timers[n].Earliest() - Last(ss).dial.WideMargin()
  {
    hide Step, Boundary, IsNew;
    var s := BeforeTurn<T>();
    var s1, t := LongAdded(s, n);
    var s2 := LongCut(s1, n, t);
    ss, es := [s, s1, s2], [Add(n, UINT32 - 1, GAP + 1), Event<T>.Refresh(GAP)];
  }

  ghost predicate LongTimer(t: Timer) {
    t.when == GAP + UINT32 && t.armedAt == 0 && t.delay == UINT32 - 1 && t.place == Slot(TOP, 1)
  }

  lemma LongAdded<T>(s: State<T>, n: T) returns (r: State<T>, t: Timer)
    requires s == BeforeTurn<T>()
    ensures Step(s, Add(n, UINT32 - 1, GAP + 1), r) && Boundary(r) && r.Idle()
    ensures n in r.timers && r.timers[n] == t && LongTimer(t)
    ensures r.dial == s.dial.(clock := GAP + 1, maxDelay := UINT32 - 1)
  {
    r := Apply(s, Add(n, UINT32 - 1, GAP + 1));
    t := r.timers[n];
    assert TicksIn(UINT32 - 1) / SlotTicks(TOP) == 2;
  }

  /** A Refresh of k + 1 ticks, the k-th of which sweeps the slot. */
  lemma CutInRefresh<T>(s: State<T>, n: T, t: Timer, elapse: nat, k: nat)
    requires Boundary(s) && Legal(s, Event<T>.Refresh(elapse)) && n in s.timers && s.timers[n] == t
    requires k > 0 && TicksIn(Counter(s.dial, elapse)) == k + 1 && Cut(Started(s.dial, elapse), t)
    requires Aligned(s.dial) && NextSweep(s.dial, TOP, t.place.idx) == s.dial.ticks + k
    ensures n in SweepTicks(s, elapse).timers && SweepTicks(s, elapse).timers[n].place == Ready
    ensures SameFields(t, SweepTicks(s, elapse).timers[n])
  {
    var b := s.(dial := Started(s.dial, elapse));
    SameRings(s, b);
    SameCount(s.dial, b.dial);
    SweepTicksKeep(s, elapse, n);
    CutIsReady(b, n, t, k);
  }

  lemma LongCut<T>(s: State<T>, n: T, t: Timer) returns (r: State<T>)
    requires Boundary(s) && s.Idle() && n in s.timers && s.timers[n] == t && LongTimer(t)
    requires s.dial.ticks == START && s.dial.clock == GAP + 1 && s.dial.slotIdx[TOP] == 0
    requires s.dial.rem == s.dial.now == s.dial.ahead == s.dial.maxElapse == 0
    ensures Step(s, Event<T>.Refresh(GAP), r) && n in r.timers && r.timers[n].place == Ready
    ensures r.timers[n].Earliest() == UINT32 - 1
    ensures r.dial.now == r.dial.maxElapse == GAP && r.dial.ahead == 1
  {
    LongIsNext(s.dial, t);
    hide Boundary, Ticks, Tick, SweepTicks, Step, NextSweep, Aligned, Cut, Counter, TicksIn, Uint32;
    CutInRefresh(s, n, t, GAP, 0x400_0001);
    r := RefreshStep(s, GAP);
  }

  lemma RefreshStep<T>(s: State<T>, elapse: nat) returns (r: State<T>)
    requires Boundary(s) && Legal(s, Event<T>.Refresh(elapse))
    ensures r == SweepTicks(s, elapse) && Step(s, Event<T>.Refresh(elapse), r)
    ensures var d := Started(s.dial, elapse);
            r.dial == d.(slotIdx := r.dial.slotIdx, sweeps := r.dial.sweeps, ticks := r.dial.ticks)
  {
    r := Apply(s, Event<T>.Refresh(elapse));
  }

  lemma LongIsNext(d: Dial, t: Timer)
    requires Exact(d) && d.ticks == START && d.slotIdx[TOP] == 0 && d.rem == d.now == 0 && LongTimer(t)
    ensures Aligned(d) && NextSweep(d, TOP, 1) == d.ticks + 0x400_0001 && Cut(Started(d, GAP), t)
    ensures TicksIn(Counter(d, GAP)) == 0x400_0002
  {
    SweptLater(d, TOP, 1);
  }
}
