/** The promises of the timing wheel, over every run. */
module WheelTheorems {
  import opened Common
  import opened WheelLayout
  import opened WheelModel
  import opened WheelProofs
  import opened WheelSweeps

  /** A wheel without timers, at any time and in any position. */
  ghost predicate IsNew<T>(s: State<T>) {
    Boundary(s) && s.timers == map[] && s.dial.lost == 0
  }

  /** The constructor's wheel. */
  ghost function NewWheel<T>(time: int): (s: State<T>)
    ensures IsNew(s) && Boundary(s) && s.timers == map[] && s.dial.rem == 0 && s.dial.now == s.dial.clock == time
  {
    var s := State<T>.State(Dial([0, 0, 0, 0, 0], 0, [0, 0, 0, 0, 0], 0, time, time, time, 0, 0, 0, 0), map[], map[]);
    assert Boundary(s) by {
      forall p ensures Holds(s, p) {}
      forall l | 0 <= l < WHEEL_NUM ensures CountsTo(s.dial, l, s.dial.ticks) {}
    }
    s
  }

  ghost predicate Step<T>(s: State<T>, e: Event<T>, r: State<T>) {
    Boundary(s) && Legal(s, e) && r == Apply(s, e)
  }

  /** A run: event es[i] leads from state ss[i] to ss[i + 1]. */
  ghost predicate Run<T>(ss: seq<State<T>>, es: seq<Event<T>>) {
    && |ss| == |es| + 1 && Boundary(ss[0])
    && (forall i {:trigger es[i]} | 0 <= i < |es| :: Step(ss[i], es[i], ss[i + 1]))
  }

  ghost function Last<T>(ss: seq<T>): T
    requires ss != []
  {
    ss[|ss| - 1]
  }

  lemma OneMore<T>(ss: seq<State<T>>, es: seq<Event<T>>, e: Event<T>)
    requires Run(ss, es) && Boundary(Last(ss)) && Legal(Last(ss), e)
    ensures Run(ss + [Apply(Last(ss), e)], es + [e])
  {
  }

  lemma {:induction false} RunGood<T>(ss: seq<State<T>>, es: seq<Event<T>>)
    requires Run(ss, es) && Good(ss[0])
    ensures Boundary(Last(ss)) && Good(Last(ss))
    decreases |es|
  {
    if es != [] {
      var k := |es| - 1;
      RunGood(ss[..|ss| - 1], es[..k]);
      assert Step(ss[k], es[k], ss[k + 1]);
      ApplyGood(ss[k], es[k]);
    }
  }

  lemma PendingIsNotLate<T>(s: State<T>, n: T)
    requires Boundary(s) && Good(s) && n in s.timers && s.timers[n].place.Slot?
    ensures s.dial.now < s.timers[n].Latest() + TICK_LEN + (s.dial.lost - s.timers[n].lost)
  {
    assert Listed(s, n) && TimerGood(s.dial, s.timers[n]);
    SweptLater(s.dial, s.timers[n].place.level, s.timers[n].place.idx);
  }

  /** No timer is late. Once the callbacks of a Refresh at time now are over, every live timer is pending in a slot,
      and now is less than a tick past its own deadline, or past the Refresh time it was armed at plus its delay, and
      what the wheel has lost since. Whatever the delays, re-arms, deletions and lags between refreshes. */
  lemma NeverLate<T>(ss: seq<State<T>>, es: seq<Event<T>>, n: T)
    requires Run(ss, es) && IsNew(ss[0]) && Last(ss).Idle() && n in Last(ss).timers
    ensures var s := Last(ss);
            s.timers[n].place.Slot? && s.dial.now < s.timers[n].Latest() + TICK_LEN + (s.dial.lost - s.timers[n].lost)
  {
    ExactIsAligned(ss[0].dial);
    RunGood(ss, es);
    assert Listed(Last(ss), n);
    PendingIsNotLate(Last(ss), n);
  }

  /** No timer becomes ready early by more than the largest elapse passed to a Refresh, or one tick, however many wheels
      it has come down through and however often it has been re-armed, if the time to its deadline fitted 32 bits at
      arming. That it does for every AddTimer and, on a regular wheel, for every re-arming. */
  lemma NeverEarly<T>(ss: seq<State<T>>, es: seq<Event<T>>, n: T)
    requires Run(ss, es) && IsNew(ss[0]) && n in Last(ss).timers
    requires Last(ss).timers[n].place == Ready || Last(ss).timers[n].place == Running
    ensures var s := Last(ss);
            && (s.dial.Fits(s.timers[n]) ==> s.dial.now > s.timers[n].Earliest() - s.dial.Margin())
            && (s.dial.DelaysFit() ==> s.dial.now > s.timers[n].Earliest() - s.dial.WideMargin())
            && (s.dial.Regular() ==> s.dial.Fits(s.timers[n])) && (s.dial.ahead == 0 ==> s.dial.DelaysFit())
  {
    ExactIsAligned(ss[0].dial);
    RunGood(ss, es);
    assert TimerGood(Last(ss).dial, Last(ss).timers[n]);
    SpannedFits(Last(ss).dial, Last(ss).timers[n]);
  }

  // ----- what the bounds are stated in -----

  ghost function Elapsed<T>(es: seq<Event<T>>): nat {
    if es == [] then 0 else Elapsed(es[..|es| - 1]) + if Last(es).Refresh? then Last(es).elapse else 0
  }

  ghost function Largest<T>(es: seq<Event<T>>): int {
    if es == [] then 0 else Max(Largest(es[..|es| - 1]), if Last(es).Refresh? then Last(es).elapse else 0)
  }

  /** How many events did not fit the counter. */
  ghost function Misfits<T>(ss: seq<State<T>>, es: seq<Event<T>>): nat
    requires |ss| == |es| + 1
  {
    if es == [] then 0
    else var k := |es| - 1;
         Misfits(ss[..|ss| - 1], es[..k]) + if FitsCounter(ss[k], es[k]) then 0 else 1
  }

  lemma StepOfDial<T>(s: State<T>, e: Event<T>, r: State<T>)
    requires Step(s, e, r)
    ensures r.dial.now == s.dial.now + (if e.Refresh? then e.elapse else 0)
    ensures r.dial.maxElapse == if e.Refresh? then Max(s.dial.maxElapse, e.elapse) else s.dial.maxElapse
    ensures r.dial.lost == s.dial.lost + if FitsCounter(s, e) then 0 else UINT32
    ensures r.dial.ahead
            == if e.Refresh? then Max(s.dial.ahead, s.dial.clock - (s.dial.now + e.elapse)) else s.dial.ahead
    ensures r.dial.maxDelay == if e.Add? then Max(s.dial.maxDelay, e.delay) else s.dial.maxDelay
    ensures r.dial.clock == if e.Add? then e.clock else Max(s.dial.clock, r.dial.now)
  {
    if e.Refresh? {
      CounterKeeps(s.dial, e.elapse);
    }
  }

  /** The wheel's time is that of all Refreshes, its largest elapse that of one of them, and what it has lost 2^32 ms
      for each that did not fit the counter. */
  lemma {:induction false} DialOfRun<T>(ss: seq<State<T>>, es: seq<Event<T>>)
    requires Run(ss, es) && ss[0].dial.maxElapse == ss[0].dial.lost == 0
    ensures var d := Last(ss).dial;
            && d.now == ss[0].dial.now + Elapsed(es) && d.maxElapse == Largest(es)
            && d.lost == UINT32 * Misfits(ss, es)
    decreases |es|
  {
    hide Step, Boundary, FitsCounter;
    if es != [] {
      var k := |es| - 1;
      DialOfRun(ss[..|ss| - 1], es[..k]);
      assert Step(ss[k], es[k], ss[k + 1]);
      StepOfDial(ss[k], es[k], ss[k + 1]);
    }
  }

  // ----- the 32-bit millisecond counter -----

  /** Whether the milliseconds left over and the time elapsed fit the counter. */
  ghost predicate FitsCounter<T>(s: State<T>, e: Event<T>) {
    e.Refresh? ==> s.dial.rem + e.elapse < UINT32
  }

  lemma OtherEventsLoseNothing<T>(s: State<T>, e: Event<T>, r: State<T>)
    requires Step(s, e, r)
    ensures r.dial.lost >= s.dial.lost && (r.dial.lost == s.dial.lost <==> FitsCounter(s, e))
  {
    if e.Refresh? {
      CounterKeeps(s.dial, e.elapse);
    }
  }

  /** A wheel has lost nothing just when every Refresh fitted the counter. */
  lemma {:induction false} NothingLostJustWhenFitting<T>(ss: seq<State<T>>, es: seq<Event<T>>)
    requires Run(ss, es) && IsNew(ss[0])
    ensures Last(ss).dial.lost == 0 <==> forall i {:trigger es[i]} | 0 <= i < |es| :: FitsCounter(ss[i], es[i])
    decreases |es|
  {
    hide Step, Boundary;
    if es != [] {
      var k := |es| - 1;
      NothingLostJustWhenFitting(ss[..|ss| - 1], es[..k]);
      OtherEventsLoseNothing(ss[k], es[k], ss[k + 1]);
      assert forall i | 0 <= i < k :: es[..k][i] == es[i];
    }
  }

  /** Then no timer is late by a tick or more. */
  lemma NeverLateWhenFitting<T>(ss: seq<State<T>>, es: seq<Event<T>>, n: T)
    requires Run(ss, es) && IsNew(ss[0]) && Last(ss).Idle() && n in Last(ss).timers
    requires forall i {:trigger es[i]} | 0 <= i < |es| :: FitsCounter(ss[i], es[i])
    ensures Last(ss).dial.now < Last(ss).timers[n].Latest() + TICK_LEN
  {
    NothingLostJustWhenFitting(ss, es);
    NeverLate(ss, es, n);
  }

  // ----- no timer is lost -----

  ghost predicate SameFields(t: Timer, u: Timer) { u == t.(place := u.place) }

  lemma {:induction false} SettleAllKeeps<T>(s: State<T>, l: nat, n: T)
    requires Conserved(s) && HasWheels(s.dial) && n in s.timers
    ensures n in SettleAll(s, l).timers && SameFields(s.timers[n], SettleAll(s, l).timers[n])
    decreases |s.At(Moving)|
  {
    if s.At(Moving) != [] {
      SettleAllKeeps(SettleHead(s, l), l, n);
    }
  }

  lemma SweepSlotKeeps<T>(s: State<T>, l: nat, d: Dial, n: T)
    requires Conserved(s) && s.At(Moving) == [] && HasWheels(s.dial) && HasWheels(d) && l < WHEEL_NUM && n in s.timers
    ensures n in SweepSlot(s, l, d).timers && SameFields(s.timers[n], SweepSlot(s, l, d).timers[n])
  {
    var c := CutOff(s, Slot(l, s.dial.slotIdx[l]));
    SameRings(c, c.(dial := d));
    SettleAllKeeps(c.(dial := d), l, n);
  }

  lemma {:induction false} CascadeKeeps<T>(s: State<T>, l: nat, n: T)
    requires CascadePoint(s, l) && n in s.timers
    ensures n in Cascade(s, l).timers && SameFields(s.timers[n], Cascade(s, l).timers[n])
    decreases WHEEL_NUM - l
  {
    if l < WHEEL_NUM {
      var d := Advance(s.dial, l);
      CascadeReaches(s.dial, l);
      CascadeGoesOn(d, l + 1);
      SweepSlotKeeps(s, l, d, n);
      if d.slotIdx[l] == 0 {
        CascadeKeeps(SweepSlot(s, l, d), l + 1, n);
      }
    }
  }

  ghost predicate Keeps<T>(s: State<T>, n: T, t: Timer) {
    Conserved(s) && s.At(Moving) == [] && Exact(s.dial) && n in s.timers && SameFields(t, s.timers[n])
  }

  lemma TickKeeps<T>(s: State<T>, n: T, t: Timer)
    requires Keeps(s, n, t)
    ensures Keeps(Tick(s), n, t)
  {
    var d := Advance(s.dial, 0).(ticks := s.dial.ticks + 1);
    TickStep(s, d);
    SweepSlotKeeps(s, 0, d, n);
    if d.slotIdx[0] == 0 {
      CascadeKeeps(SweepSlot(s, 0, d), 1, n);
    }
  }

  lemma {:induction false} TicksKeep<T>(s: State<T>, k: nat, n: T, t: Timer)
    requires Keeps(s, n, t)
    ensures Keeps(Ticks(s, k), n, t)
  {
    hide Tick;
    if k > 0 {
      TicksKeep(s, k - 1, n, t);
      TickKeeps(Ticks(s, k - 1), n, t);
    }
  }

  lemma SweepTicksKeep<T>(s: State<T>, elapse: nat, n: T)
    requires Boundary(s) && Legal(s, Event<T>.Refresh(elapse)) && n in s.timers
    ensures n in SweepTicks(s, elapse).timers && SameFields(s.timers[n], SweepTicks(s, elapse).timers[n])
  {
    hide Ticks;
    var s1 := s.(dial := Started(s.dial, elapse));
    SameRings(s, s1);
    SameCount(s.dial, s1.dial);
    var t := s.timers[n];
    assert Keeps(s1, n, t);
    TicksKeep(s1, TicksIn(Counter(s.dial, elapse)), n, t);
  }

  /** The events that end a timer or give it a new deadline: DelTimer outside its own callback, and the return of its
      callback. */
  ghost predicate Ends<T>(s: State<T>, e: Event<T>, n: T)
    requires n in s.timers
  {
    if s.timers[n].place == Running then e.Return? else e == Del(n)
  }

  /** Nothing else loses a timer or changes its deadline. */
  lemma NothingElseTouches<T>(s: State<T>, e: Event<T>, n: T)
    requires Boundary(s) && Legal(s, e) && n in s.timers && !Ends(s, e, n)
    ensures n in Apply(s, e).timers && SameFields(s.timers[n], Apply(s, e).timers[n])
  {
    match e
    case Add(m, delay, clock) =>
    case Del(m) =>
    case Refresh(elapse) => SweepTicksKeep(s, elapse, n);
    case Fire =>
    case Return(again) =>
      assert Holds(s, Running);
  }

  /** Along a run that neither ends nor re-arms it, a timer keeps its deadline. */
  ghost predicate Lasts<T>(ss: seq<State<T>>, es: seq<Event<T>>, n: T)
    requires |ss| == |es| + 1
  {
    forall i {:trigger es[i]} | 0 <= i < |es| :: n in ss[i].timers && !Ends(ss[i], es[i], n)
  }

  lemma StepTouchesNoOther<T>(s: State<T>, e: Event<T>, r: State<T>, n: T)
    requires Step(s, e, r) && n in s.timers && !Ends(s, e, n)
    ensures n in r.timers && SameFields(s.timers[n], r.timers[n])
  {
    NothingElseTouches(s, e, n);
  }

  lemma LastsBefore<T>(ss: seq<State<T>>, es: seq<Event<T>>, n: T)
    requires |ss| == |es| + 1 && es != [] && Lasts(ss, es, n)
    ensures Lasts(ss[..|ss| - 1], es[..|es| - 1], n)
  {
    var ss0, es0 := ss[..|ss| - 1], es[..|es| - 1];
    forall i | 0 <= i < |es0| ensures n in ss0[i].timers && !Ends(ss0[i], es0[i], n) {
      assert es0[i] == es[i];
    }
  }

  lemma {:induction false} LastingKeepsFields<T>(ss: seq<State<T>>, es: seq<Event<T>>, n: T, t: Timer)
    requires Run(ss, es) && Lasts(ss, es, n) && n in ss[0].timers && SameFields(t, ss[0].timers[n])
    ensures n in Last(ss).timers && SameFields(t, Last(ss).timers[n])
    decreases |es|
  {
    hide Step, Ends, Boundary;
    if es != [] {
      var k := |es| - 1;
      LastsBefore(ss, es, n);
      LastingKeepsFields(ss[..|ss| - 1], es[..k], n, t);
      StepTouchesNoOther(ss[k], es[k], ss[k + 1], n);
    }
  }

  /** A timer added when the clock reads clock, whatever happened before and whatever happens after short of its own
      end: it is less than a tick late, and ready at most one Refresh before its delay has passed since the last
      Refresh before it was added. */
  lemma AddedTimerIsOnTime<T>(ss: seq<State<T>>, es: seq<Event<T>>, n: T, delay: nat, clock: int, rs: seq<State<T>>,
                              fs: seq<Event<T>>)
    requires Run(ss, es) && IsNew(ss[0])
    requires Run(rs, fs) && Step(Last(ss), Add(n, delay, clock), rs[0]) && Lasts(rs, fs, n)
    ensures var r, now, when := Last(rs), Last(ss).dial.now, clock + delay;
            && n in r.timers && r.timers[n].when == when
            && (r.timers[n].place.Slot? || r.timers[n].place == Ready || r.timers[n].place == Running)
            && (r.timers[n].place.Slot? ==> r.dial.now < when + TICK_LEN + (r.dial.lost - Last(ss).dial.lost))
            && (!r.timers[n].place.Slot? && (clock == now || delay + r.dial.ahead < UINT32) ==>
                  r.dial.now > now + delay - r.dial.Margin())
  {
    var r := Last(rs);
    ExactIsAligned(ss[0].dial);
    RunGood(ss, es);
    ApplyGood(Last(ss), Add(n, delay, clock));
    RunGood(rs, fs);
    LastingKeepsFields(rs, fs, n, rs[0].timers[n]);
    assert Listed(r, n) && TimerGood(r.dial, r.timers[n]);
    if r.timers[n].place.Slot? {
      PendingIsNotLate(r, n);
    }
  }

  /** A timer whose callback returns a positive result is due by that much more than it was, and on time for it: it
      lasts as one that has been added does. Of the bounds one is its new deadline and one the time it was re-armed
      at plus the result. */
  lemma RearmedTimerIsOnTime<T>(ss: seq<State<T>>, es: seq<Event<T>>, n: T, again: int, rs: seq<State<T>>,
                                fs: seq<Event<T>>)
    requires Run(ss, es) && IsNew(ss[0]) && Last(ss).At(Running) == [n] && again > 0
    requires Run(rs, fs) && Step(Last(ss), Event<T>.Return(again), rs[0]) && Lasts(rs, fs, n)
    ensures n in Last(ss).timers && n in Last(rs).timers
    ensures var r, now := Last(rs), Last(ss).dial.now; var t := r.timers[n];
            var when := Last(ss).timers[n].when + again; var first := if when < now + again then when else now + again;
            && t.when == when && (t.place.Slot? || t.place == Ready || t.place == Running)
            && (t.place.Slot? ==> r.dial.now < Max(when, now + again) + TICK_LEN + (r.dial.lost - Last(ss).dial.lost))
            && (!t.place.Slot? && when - now < UINT32 ==> r.dial.now > first - r.dial.Margin())
            && (!t.place.Slot? && r.dial.DelaysFit() ==> r.dial.now > first - r.dial.WideMargin())
  {
    var r := Last(rs);
    ExactIsAligned(ss[0].dial);
    RunGood(ss, es);
    ReturnRearms(Last(ss), n, again);
    ApplyGood(Last(ss), Event<T>.Return(again));
    RunGood(rs, fs);
    LastingKeepsFields(rs, fs, n, rs[0].timers[n]);
    assert Listed(r, n) && TimerGood(r.dial, r.timers[n]);
    if r.timers[n].place.Slot? {
      PendingIsNotLate(r, n);
    }
  }

  lemma ReturnRearms<T>(s: State<T>, n: T, again: int)
    requires Boundary(s) && Legal(s, Event<T>.Return(again)) && s.At(Running) == [n]
    ensures n in s.timers && (n in Returned(s, again).timers <==> again > 0)
    ensures again > 0 ==>
              var t := Returned(s, again).timers[n];
              t.when == s.timers[n].when + again && t.armedAt == s.dial.now && t.delay == again && t.lost == s.dial.lost
  {
    assert Holds(s, Running) && s.At(Running)[0] == n;
  }

  /** A timer deleted outside its own callback is gone; its own callback's return decides otherwise. */
  lemma DeletedIsGone<T>(s: State<T>, n: T)
    requires Boundary(s) && Legal(s, Del(n))
    ensures n in Apply(s, Del(n)).timers <==> s.timers[n].place == Running
    ensures forall q :: n in Apply(s, Del(n)).At(q) ==> q == Running == s.timers[n].place
  {
    forall q ensures n in Apply(s, Del(n)).At(q) ==> q == Running == s.timers[n].place {
      assert Holds(Apply(s, Del(n)), q);
    }
  }

  // ----- when the counter makes timers late -----

  /** Less than a tick past its deadline, or already taken out of its slot to be called. */
  ghost predicate OnTime<T>(s: State<T>, n: T) {
    n in s.timers && (s.timers[n].place.Slot? ==> s.dial.now < s.timers[n].when + TICK_LEN)
  }

  /** What a Refresh makes of a wheel to which a timer has just been added. */
  ghost function AddedAndSwept<T>(s: State<T>, n: T, delay: nat, elapse: nat): State<T>
    requires CanAdd(s, n) && delay < UINT32 && elapse < UINT32
  {
    SweepTicks(AddTimer(s, n, delay, s.dial.now), elapse)
  }

  ghost predicate CanAdd<T>(s: State<T>, n: T) {
    Boundary(s) && Good(s) && s.Idle() && s.dial.clock == s.dial.now && n !in s.timers
  }

  /** In any state, a timer added at the last Refresh time is on time after the next Refresh just when that fits the
      counter or the timer was not due by then. */
  lemma OnTimeJustWhenFitting<T>(s: State<T>, n: T, delay: nat, elapse: nat)
    requires CanAdd(s, n) && delay < UINT32 && elapse < UINT32
    ensures OnTime(AddedAndSwept(s, n, delay, elapse), n) <==>
              s.dial.rem + elapse < UINT32 || elapse < delay + TICK_LEN
  {
    var e := Add(n, delay, s.dial.now);
    var s1, s2 := Apply(s, e), AddedAndSwept(s, n, delay, elapse);
    ApplyGood(s, e);
    AddedIsIdle(s, n, delay);
    SweepTicksKeep(s1, elapse, n);
    ApplyGood(s1, Event<T>.Refresh(elapse));
    CounterKeeps(s1.dial, elapse);
    if s.dial.rem + elapse < UINT32 {
      if s2.timers[n].place.Slot? {
        PendingIsNotLate(s2, n);
      }
    } else {
      StillThere(s1, elapse);
    }
  }

  /** So all timers that can be added then are on time, whatever their delay, just when the Refresh fits. */
  lemma AllOnTimeJustWhenFitting<T>(s: State<T>, n: T, elapse: nat)
    requires CanAdd(s, n) && elapse < UINT32
    ensures (forall delay: nat | delay < UINT32 :: OnTime(AddedAndSwept(s, n, delay, elapse), n)) <==>
              s.dial.rem + elapse < UINT32
  {
    forall delay: nat | delay < UINT32
      ensures OnTime(AddedAndSwept(s, n, delay, elapse), n) <==>
                s.dial.rem + elapse < UINT32 || elapse < delay + TICK_LEN
    {
      OnTimeJustWhenFitting(s, n, delay, elapse);
    }
    if s.dial.rem + elapse >= UINT32 {
      assert !OnTime(AddedAndSwept(s, n, 0, elapse), n);
    }
  }

  lemma AddedIsIdle<T>(s: State<T>, n: T, delay: nat)
    requires CanAdd(s, n) && delay < UINT32
    ensures var r := AddTimer(s, n, delay, s.dial.now);
            && r.Idle() && r.dial.now == s.dial.now && r.dial.rem == s.dial.rem && n in r.timers
            && r.timers[n].when == s.dial.now + delay && r.timers[n].place.Slot?
            && r.timers[n].Latest() == s.dial.now + delay && r.timers[n].lost == r.dial.lost
  {
  }

  /** A Refresh that does not fit makes no tick. */
  lemma StillThere<T>(s: State<T>, elapse: nat)
    requires Boundary(s) && Legal(s, Event<T>.Refresh(elapse)) && s.dial.rem + elapse >= UINT32
    ensures SweepTicks(s, elapse).timers == s.timers
  {
    CounterKeeps(s.dial, elapse);
    assert TicksIn(Counter(s.dial, elapse)) == 0;
  }

  /** Where it does not fit, a timer can be as late as the counter is long: a timer for now is still waiting after a
      Refresh of 1 ms and one of 2^32 - 1 ms. */
  lemma LateByTheCounter<T>(n: T) returns (ss: seq<State<T>>, es: seq<Event<T>>)
    ensures Run(ss, es) && IsNew(ss[0]) && es == [Add(n, 0, 0), Event<T>.Refresh(1), Event<T>.Refresh(UINT32 - 1)]
    ensures n in Last(ss).timers && Last(ss).timers[n].place.Slot? && Last(ss).timers[n].Latest() == 0
    ensures Last(ss).Idle() && Last(ss).dial.now == UINT32
  {
    hide Step, Boundary, IsNew, NewWheel;
    var s := NewWheel<T>(0);
    var s1 := Dropped(s, n);
    var s2 := Passed(s1, 1, 1);
    var s3 := Passed(s2, UINT32 - 1, 0);
    ss, es := [s, s1, s2, s3], [Add(n, 0, 0), Event<T>.Refresh(1), Event<T>.Refresh(UINT32 - 1)];
  }

  ghost predicate Quiet<T>(s: State<T>, rem: nat, now: int) {
    Boundary(s) && s.Idle() && s.dial.rem == rem && s.dial.now == s.dial.clock == now
  }

  /** A timer for now, added to a wheel without any. */
  lemma Dropped<T>(s: State<T>, n: T) returns (r: State<T>)
    requires Boundary(s) && s.timers == map[] && s.dial.clock == s.dial.now
    ensures Step(s, Add(n, 0, s.dial.now), r) && Quiet(r, s.dial.rem, s.dial.now)
    ensures n in r.timers && r.timers[n].place.Slot? && r.timers[n].Latest() == s.dial.now
  {
    r := Apply(s, Add(n, 0, s.dial.now));
    forall p | p == Moving || p == Ready || p == Running ensures s.At(p) == [] && r.At(p) == [] {
      assert Holds(s, p);
      if s.At(p) != [] {
        SomeAt(s, p);
      }
    }
  }

  lemma SomeAt<T>(s: State<T>, p: Place)
    requires Holds(s, p) && s.At(p) != []
    ensures exists n :: n in s.timers && s.timers[n].place == p
  {
    assert s.At(p)[0] in s.timers;
  }

  /** A Refresh for which the counter shows less than a tick. */
  lemma Passed<T>(s: State<T>, elapse: nat, rem: nat) returns (r: State<T>)
    requires Quiet(s, s.dial.rem, s.dial.now) && elapse < UINT32 && rem < TICK_LEN
    requires rem == if s.dial.rem + elapse < UINT32 then s.dial.rem + elapse else s.dial.rem + elapse - UINT32
    ensures Step(s, Event<T>.Refresh(elapse), r) && Quiet(r, rem, s.dial.now + elapse) && r.timers == s.timers
  {
    CounterKeeps(s.dial, elapse);
    hide Counter;
    r := s.(dial := Started(s.dial, elapse));
    SameRings(s, r);
    SameCount(s.dial, r.dial);
    assert TicksIn(Counter(s.dial, elapse)) == 0;
  }
}
