/** What holds of every run of the timing wheel. */
module WheelProofs {
  import opened Common
  import opened Division
  import opened WheelLayout
  import opened WheelModel

  // ----- one slot -----

  lemma OffsetOfSum(o: nat, d: nat, size: nat)
    requires o < size && d < size
    ensures Offset((d + o) % size, d, size) == o
  {
    if d + o < size {
      DivModUnique(d + o, size, 0, d + o);
    } else {
      DivModUnique(d + o, size, 1, d + o - size);
    }
  }

  /** The slot chosen for a delay is swept no later than one tick after the delay has passed on the wheel, and in the
      finest wheel exactly then. */
  lemma SlotForIsSwept(d: Dial, delay: nat)
    requires Aligned(d) && delay < UINT32
    ensures var p := SlotFor(d, delay);
            && Millis(NextSweep(d, p.level, p.idx)) <= Millis(d.ticks) + delay + TICK_LEN
            && (p.level == 0 ==> NextSweep(d, 0, p.idx) == d.ticks + TicksIn(delay) + 1)
            && (p.level > 0 ==> NextSweep(d, p.level, p.idx)
                                == (d.sweeps[p.level] + TicksIn(delay) / SlotTicks(p.level)) * SlotTicks(p.level))
  {
    SlotForSweep(d, delay);
    SlotForBound(d, delay, SlotFor(d, delay).level);
    hide NextSweep, SlotFor, SlotTicks;
  }

  lemma SlotForSweep(d: Dial, delay: nat)
    requires Aligned(d) && delay < UINT32
    ensures var p := SlotFor(d, delay); var st := SlotTicks(p.level);
            NextSweep(d, p.level, p.idx)
            == if p.level == 0 then d.ticks + TicksIn(delay) + 1 else (d.sweeps[p.level] + TicksIn(delay) / st) * st
  {
    var p, tickCnt := SlotFor(d, delay), TicksIn(delay);
    var l := p.level;
    var o := if l == 0 then tickCnt else tickCnt / SlotTicks(l) - 1;
    assert 0 <= o < Size(l) && AlignedAt(d, l);
    OffsetOfSum(o, d.slotIdx[l], Size(l));
  }

  lemma SlotForBound(d: Dial, delay: nat, l: nat)
    requires Aligned(d) && l < WHEEL_NUM
    ensures (d.sweeps[l] + TicksIn(delay) / SlotTicks(l)) * SlotTicks(l) <= d.ticks + TicksIn(delay)
    ensures Millis(TicksIn(delay)) <= delay
  {
    var tickCnt, st := TicksIn(delay), SlotTicks(l);
    assert AlignedAt(d, l);
    DivMulAtMost(tickCnt, st);
    assert (d.sweeps[l] + tickCnt / st) * st == d.sweeps[l] * st + tickCnt / st * st;
  }

  /** Advancing wheel l changes no slot's sweep tick, except for the slot that has just been swept. */
  lemma AdvanceKeepsSweeps(d: Dial, e: Dial, l: nat, j: nat, i: nat)
    requires Aligned(d) && Aligned(e) && l < WHEEL_NUM && j < WHEEL_NUM && i < Size(j)
    requires e.sweeps == d.sweeps[l := d.sweeps[l] + 1]
    requires (j, i) != (l, d.slotIdx[l])
    ensures NextSweep(e, j, i) == NextSweep(d, j, i)
  {
    assert AlignedAt(d, j) && AlignedAt(e, j);
    if j == l {
      NextDigit(d.sweeps[l], Size(l));
    }
  }

  // ----- no node waits too long or too little -----

  /** A node waits in no slot that is swept later than its deadline allows. */
  ghost predicate Timely(d: Dial, t: Timer)
    requires Aligned(d)
  {
    t.place.Slot? && IsPlace(t.place) ==>
      d.origin + Millis(NextSweep(d, t.place.level, t.place.idx)) + t.lost <= t.Latest() + TICK_LEN
  }

  /** A node that is ready at time is not too early; on a regular wheel its deadline is not far ahead of
      wheelTime. */
  ghost predicate DueAt(d: Dial, t: Timer, time: int, wheelTime: int) {
    && (d.Fits(t) ==> time > t.Earliest() - d.Margin())
    && (d.DelaysFit() ==> time > t.Earliest() - d.WideMargin())
    && (d.Regular() ==> t.when <= wheelTime + d.Reach())
  }

  /** A deadline farther from the arming than an AddTimer puts it is that of a re-arming, and on a regular wheel not
      much farther. */
  ghost predicate Spanned(d: Dial, t: Timer) {
    && t.armedAt <= d.now && t.armedAt < d.WheelTime() + d.lost + TICK_LEN
    && (t.when - t.base <= d.maxDelay || t.delay < UINT32 / 2)
    && (d.Regular() ==> t.when - t.base <= d.maxDelay || t.when - t.armedAt < d.Reach() + UINT32 / 2)
  }

  lemma SpannedFits(d: Dial, t: Timer)
    requires Spanned(d, t)
    ensures d.Regular() ==> d.Fits(t)
    ensures d.DelaysFit() && !d.Fits(t) ==> t.delay < UINT32 / 2 < d.Reach()
  {
  }

  /** A node waits in no slot of the finest wheel that makes it ready too early, and none that is ready is too early. */
  ghost predicate NotEarly(d: Dial, t: Timer)
    requires Aligned(d)
  {
    && Spanned(d, t)
    && (t.place.Slot? && t.place.level == 0 && IsPlace(t.place) ==>
          var sweep := d.origin + Millis(NextSweep(d, 0, t.place.idx)); DueAt(d, t, sweep + d.lost, sweep))
    && (t.place == Ready || t.place == Running ==> DueAt(d, t, d.now, d.WheelTime()))
  }

  ghost predicate TimerGood(d: Dial, t: Timer)
    requires Aligned(d)
  {
    Timely(d, t) && NotEarly(d, t) && t.base <= d.clock && t.lost <= d.lost
  }

  ghost predicate Good<T>(s: State<T>) {
    && Aligned(s.dial)
    && forall n {:trigger TimerGood(s.dial, s.timers[n])} | n in s.timers :: TimerGood(s.dial, s.timers[n])
  }

  /** Inside Refresh: the wheel is at most maxElapse behind the new time and never ahead of it. */
  ghost predicate Sweeping(d: Dial) {
    && d.clock <= d.now + d.ahead && d.now - d.maxElapse < d.WheelTime() + d.lost <= d.now
    && (d.lost > 0 ==> d.maxElapse + TICK_LEN > UINT32)
  }

  ghost predicate Due(d: Dial, t: Timer) {
    DueAt(d, t, d.now, d.WheelTime())
  }

  /** What is being swept off the finest wheel is due. */
  ghost predicate MovingIsDue<T>(s: State<T>) {
    forall n | n in s.timers && s.timers[n].place == Moving :: Due(s.dial, s.timers[n])
  }

  /** A slot chosen by the time left to a deadline at the new Refresh time is neither late nor early. */
  lemma RefiledGood(d: Dial, t: Timer)
    requires Aligned(d) && Sweeping(d) && t.base <= d.clock && t.lost <= d.lost && t.when > d.now
    requires Spanned(d, t)
    ensures TimerGood(d, t.(place := SlotFor(d, Uint32(t.when - d.now))))
  {
    var left := Uint32(t.when - d.now);
    SpannedFits(d, t);
    assert left <= t.when - d.now && (d.Fits(t) ==> left == t.when - d.now);
    SlotForIsSwept(d, left);
    TicksCover(left);
    hide SlotFor, NextSweep, Uint32, TicksIn;
  }

  lemma TicksCover(delay: nat)
    ensures Millis(TicksIn(delay)) <= delay < Millis(TicksIn(delay) + 1)
  {
  }

  /** The place a sweep chooses is neither late nor early. */
  lemma SettlePlaceGood(d: Dial, l: nat, t: Timer)
    requires Aligned(d) && Sweeping(d) && t.base <= d.clock && t.lost <= d.lost && (l == 0 ==> Due(d, t))
    requires Spanned(d, t)
    ensures TimerGood(d, t.(place := SettlePlace(d, l, t)))
  {
    if l > 0 && t.when > d.now {
      RefiledGood(d, t);
    }
    hide SlotFor;
  }

  lemma SettleHeadGood<T>(s: State<T>, l: nat)
    requires Conserved(s) && Good(s) && Sweeping(s.dial) && s.At(Moving) != [] && (l == 0 ==> MovingIsDue(s))
    ensures Good(SettleHead(s, l)) && (l == 0 ==> MovingIsDue(SettleHead(s, l)))
  {
    assert Holds(s, Moving);
    var n := s.At(Moving)[0];
    assert TimerGood(s.dial, s.timers[n]);
    SettlePlaceGood(s.dial, l, s.timers[n]);
  }

  lemma {:induction false} SettleAllGood<T>(s: State<T>, l: nat)
    requires Conserved(s) && Good(s) && Sweeping(s.dial) && (l == 0 ==> MovingIsDue(s))
    ensures Good(SettleAll(s, l))
    decreases |s.At(Moving)|
  {
    if s.At(Moving) != [] {
      SettleHeadGood(s, l);
      SettleAllGood(SettleHead(s, l), l);
    }
  }

  /** Cutting off the current slot of wheel l and moving the wheel on. */
  lemma AdvanceGood(d: Dial, e: Dial, l: nat, t: Timer)
    requires Aligned(d) && Aligned(e) && l < WHEEL_NUM && TimerGood(d, t) && t.place != Moving
    requires e == d.(slotIdx := e.slotIdx, sweeps := d.sweeps[l := d.sweeps[l] + 1], ticks := e.ticks)
    requires l == 0 ==> d.origin + Millis(d.ticks + 1) + d.lost <= d.now && e.ticks == d.ticks + 1
    ensures t.place != Slot(l, d.slotIdx[l]) ==> TimerGood(e, t)
    ensures t.place == Slot(l, d.slotIdx[l]) ==> TimerGood(e, t.(place := Moving)) && (l == 0 ==> Due(e, t))
  {
    var p := t.place;
    assert AlignedAt(d, l);
    if p.Slot? && IsPlace(p) && p != Slot(l, d.slotIdx[l]) {
      AdvanceKeepsSweeps(d, e, l, p.level, p.idx);
    }
  }

  lemma SweepSlotGood<T>(s: State<T>, l: nat, d: Dial)
    requires Conserved(s) && Good(s) && s.At(Moving) == [] && l < WHEEL_NUM && Aligned(d) && Sweeping(d)
    requires d == s.dial.(slotIdx := d.slotIdx, sweeps := s.dial.sweeps[l := s.dial.sweeps[l] + 1], ticks := d.ticks)
    requires l == 0 ==> d.origin + Millis(s.dial.ticks + 1) + d.lost <= d.now && d.ticks == s.dial.ticks + 1
    ensures Good(SweepSlot(s, l, d))
  {
    var p := Slot(l, s.dial.slotIdx[l]);
    var c := CutOff(s, p);
    var c' := c.(dial := d);
    SameRings(c, c');
    forall n | n in c'.timers
      ensures TimerGood(d, c'.timers[n])
      ensures l == 0 && c'.timers[n].place == Moving ==> Due(d, c'.timers[n])
    {
      assert Listed(s, n);
      AdvanceGood(s.dial, d, l, s.timers[n]);
    }
    SettleAllGood(c', l);
  }

  lemma {:induction false} CascadeGood<T>(s: State<T>, l: nat)
    requires CascadePoint(s, l) && Good(s) && Sweeping(s.dial)
    ensures Good(Cascade(s, l))
    decreases WHEEL_NUM - l
  {
    if l < WHEEL_NUM {
      var d := Advance(s.dial, l);
      CascadeReaches(s.dial, l);
      CascadeGoesOn(d, l + 1);
      SweptIsAligned(d, l + 1);
      SweepSlotGood(s, l, d);
      if d.slotIdx[l] == 0 {
        CascadeGood(SweepSlot(s, l, d), l + 1);
      }
    }
  }

  /** The tick about to be counted ends at most maxElapse before the new time and not after it. */
  ghost predicate TickDue(d: Dial) {
    && d.clock <= d.now + d.ahead && d.now - d.maxElapse < d.WheelTime() + TICK_LEN + d.lost <= d.now
    && (d.lost > 0 ==> d.maxElapse + TICK_LEN > UINT32)
  }

  lemma TickSweepGood<T>(s: State<T>, d: Dial)
    requires Conserved(s) && Good(s) && Exact(s.dial) && s.At(Moving) == [] && TickDue(s.dial)
    requires d == Advance(s.dial, 0).(ticks := s.dial.ticks + 1)
    ensures Swept(d, 1) && Sweeping(d) && Good(SweepSlot(s, 0, d))
  {
    TickStarts(s.dial);
    SweptIsAligned(d, 1);
    SweepSlotGood(s, 0, d);
  }

  lemma TickGood<T>(s: State<T>)
    requires Conserved(s) && Good(s) && Exact(s.dial) && s.At(Moving) == [] && TickDue(s.dial)
    ensures Good(Tick(s))
  {
    var d := Advance(s.dial, 0).(ticks := s.dial.ticks + 1);
    TickSweepGood(s, d);
    CascadeGoesOn(d, 1);
    var r := SweepSlot(s, 0, d);
    if d.slotIdx[0] == 0 {
      CascadeGood(r, 1);
      assert Good(Cascade(r, 1));
    }
    var q := if d.slotIdx[0] == 0 then Cascade(r, 1) else r;
    assert Good(q);
    assert Tick(s) == q;
  }

  lemma {:induction false} TicksGood<T>(s: State<T>, n: nat)
    requires Conserved(s) && Good(s) && Exact(s.dial) && s.At(Moving) == []
    requires s.dial.WheelTime() + Millis(n) + s.dial.lost <= s.dial.now && (n > 0 ==> TickDue(s.dial))
    ensures Good(Ticks(s, n))
  {
    hide Tick;
    if n > 0 {
      TicksGood(s, n - 1);
      var r := Ticks(s, n - 1);
      assert TickDue(r.dial) by {
        assert r.dial.WheelTime() == s.dial.WheelTime() + Millis(n - 1);
      }
      TickGood(r);
    }
  }

  // ----- every event keeps it -----

  /** A slot chosen at a tick boundary, by _AddTimerNode from AddTimer or from a callback that re-arms. */
  lemma ArmedGood(d: Dial, delay: nat, when: int, base: int)
    requires Exact(d) && Aligned(d) && delay < UINT32 && base <= d.clock
    requires d.now - TICK_LEN < d.WheelTime() + d.lost <= d.now
    requires when - base <= d.maxDelay || delay < UINT32 / 2
    requires d.Regular() ==> d.lost == 0 && when <= d.WheelTime() + delay + d.Reach()
    requires d.Regular() ==> when - base <= d.maxDelay || when - d.now < d.Reach() + UINT32 / 2
    ensures TimerGood(d, Timer(when, d.now, delay, base, d.lost, SlotFor(d, delay)))
  {
    SlotForIsSwept(d, delay);
  }

  lemma AddTimerGood<T>(s: State<T>, n: T, delay: nat, clock: int)
    requires Boundary(s) && Good(s) && Legal(s, Add(n, delay, clock))
    ensures Good(AddTimer(s, n, delay, clock))
  {
    var d := Read(s.dial, clock, delay);
    assert SlotFor(d, delay) == SlotFor(s.dial, delay);
    hide SlotFor, Conserved, Exact;
    SameCount(s.dial, d);
    ArmedGood(d, delay, clock + delay, clock);
    forall x | x in s.timers ensures TimerGood(d, s.timers[x]) {
      LaterClockGood(s.dial, clock, delay, s.timers[x]);
    }
    hide TimerGood;
  }

  lemma LaterClockGood(d: Dial, clock: int, delay: nat, t: Timer)
    requires Exact(d) && Aligned(d) && Aligned(Read(d, clock, delay)) && d.clock <= clock && TimerGood(d, t)
    ensures TimerGood(Read(d, clock, delay), t)
  {
  }

  lemma StartedKeepsGood(d: Dial, elapse: nat, t: Timer)
    requires Aligned(d) && InTime(d, 0) && elapse < UINT32 && TimerGood(d, t) && Aligned(Started(d, elapse))
    ensures TimerGood(Started(d, elapse), t)
  {
    CounterKeeps(d, elapse);
    hide Counter, Millis, TicksIn;
  }

  lemma StartedIsDue(d: Dial, elapse: nat)
    requires InTime(d, 0) && elapse < UINT32
    ensures var e, n := Started(d, elapse), TicksIn(Counter(d, elapse));
            e.WheelTime() + Millis(n) + e.lost <= e.now && (n > 0 ==> TickDue(e))
  {
    CounterKeeps(d, elapse);
  }

  lemma SweepTicksGood<T>(s: State<T>, elapse: nat)
    requires Boundary(s) && Good(s) && Legal(s, Event<T>.Refresh(elapse))
    ensures Good(SweepTicks(s, elapse))
  {
    hide Tick, TimerGood, Exact;
    var r := s.(dial := Started(s.dial, elapse));
    SameRings(s, r);
    SameCount(s.dial, r.dial);
    StartedIsDue(s.dial, elapse);
    forall x | x in r.timers ensures TimerGood(r.dial, r.timers[x]) {
      assert TimerGood(s.dial, s.timers[x]) && Listed(s, x);
      StartedKeepsGood(s.dial, elapse, s.timers[x]);
    }
    TicksGood(r, TicksIn(Counter(s.dial, elapse)));
  }

  lemma FireNextGood<T>(s: State<T>)
    requires Boundary(s) && Good(s) && Legal(s, Event<T>.Fire)
    ensures Good(FireNext(s))
  {
    assert Holds(s, Ready);
    assert TimerGood(s.dial, s.timers[s.At(Ready)[0]]);
  }

  lemma ReturnedGood<T>(s: State<T>, again: int)
    requires Boundary(s) && Good(s) && Legal(s, Event<T>.Return(again))
    ensures Good(Returned(s, again))
  {
    hide TimerGood;
    assert Holds(s, Running) && TimerGood(s.dial, s.timers[s.At(Running)[0]]);
    if again > 0 {
      RearmedGood(s.dial, s.timers[s.At(Running)[0]], again);
    }
  }

  lemma RearmedGood(d: Dial, t: Timer, again: nat)
    requires Exact(d) && InTime(d, 0) && Aligned(d) && TimerGood(d, t) && t.place == Running && again < UINT32 / 2
    ensures TimerGood(d, Timer(t.when + again, d.now, again, d.now, d.lost, SlotFor(d, again)))
  {
    hide SlotFor, NextSweep, Exact;
    ArmedGood(d, again, t.when + again, d.now);
  }

  lemma ApplyGood<T>(s: State<T>, e: Event<T>)
    requires Boundary(s) && Good(s) && Legal(s, e)
    ensures Good(Apply(s, e))
  {
    match e
    case Add(n, delay, clock) => AddTimerGood(s, n, delay, clock);
    case Del(n) =>
    case Refresh(elapse) => SweepTicksGood(s, elapse);
    case Fire => FireNextGood(s);
    case Return(again) => ReturnedGood(s, again);
  }
}
