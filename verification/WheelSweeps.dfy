/** Which tick sweeps which slot, and what that does to the nodes in it. */
module WheelSweeps {
  import opened Common
  import opened WheelLayout
  import opened WheelModel
  import opened WheelProofs

  lemma {:induction false} SettleAllLeavesOthers<T>(s: State<T>, l: nat, n: T)
    requires Conserved(s) && HasWheels(s.dial) && n in s.timers && s.timers[n].place != Moving
    ensures n in SettleAll(s, l).timers && SettleAll(s, l).timers[n] == s.timers[n]
    decreases |s.At(Moving)|
  {
    assert Holds(s, Moving);
    if s.At(Moving) != [] {
      SettleAllLeavesOthers(SettleHead(s, l), l, n);
    }
  }

  lemma {:induction false} SettleAllSettles<T>(s: State<T>, l: nat, n: T)
    requires Conserved(s) && HasWheels(s.dial) && n in s.timers && s.timers[n].place == Moving
    ensures n in SettleAll(s, l).timers
    ensures SettleAll(s, l).timers[n] == s.timers[n].(place := SettlePlace(s.dial, l, s.timers[n]))
    decreases |s.At(Moving)|
  {
    assert Holds(s, Moving) && Listed(s, n);
    if n == s.At(Moving)[0] {
      SettleAllLeavesOthers(SettleHead(s, l), l, n);
    } else {
      SettleAllSettles(SettleHead(s, l), l, n);
    }
  }

  /** Sweeping a slot settles the nodes in it and touches no other node. */
  lemma SweepSlotMoves<T>(s: State<T>, l: nat, d: Dial, n: T, t: Timer)
    requires Conserved(s) && s.At(Moving) == [] && HasWheels(s.dial) && HasWheels(d) && l < WHEEL_NUM
    requires n in s.timers && t == s.timers[n]
    ensures n in SweepSlot(s, l, d).timers
    ensures t.place == Slot(l, s.dial.slotIdx[l]) ==>
              SweepSlot(s, l, d).timers[n] == t.(place := SettlePlace(d, l, t))
    ensures t.place != Slot(l, s.dial.slotIdx[l]) ==> SweepSlot(s, l, d).timers[n] == t
  {
    var p := Slot(l, s.dial.slotIdx[l]);
    var c := CutOff(s, p);
    var c' := c.(dial := d);
    SameRings(c, c');
    assert Listed(s, n);
    assert SweepSlot(s, l, d) == SettleAll(c', l);
    assert c'.timers[n] == if t.place == p then t.(place := Moving) else t;
    hide SweepSlot, CutOff, SettleAll, SettleHead, SettlePlace, Conserved, HasWheels, Listed;
    if t.place == p {
      SettleAllSettles(c', l, n);
    } else {
      SettleAllLeavesOthers(c', l, n);
    }
  }

  /** A slot that has just been swept. */
  ghost predicate JustSwept(d: Dial, p: Place) {
    HasWheels(d) && p.Slot? && 0 < p.level && IsPlace(p) && AlignedAt(d, p.level)
    && Offset(p.idx, d.slotIdx[p.level], Size(p.level)) == Size(p.level) - 1
  }

  /** A cascaded node never goes back into the slot just swept: no delay reaches a whole turn ahead. */
  lemma NeverReenters(d: Dial, p: Place, l: nat, t: Timer)
    requires JustSwept(d, p)
    ensures SettlePlace(d, l, t) != p
  {
    if l > 0 && t.when > d.now && SettlePlace(d, l, t).level == p.level {
      var o := TicksIn(Uint32(t.when - d.now)) / SlotTicks(p.level) - 1;
      assert 0 <= o < Size(p.level) - 1;
      hide SlotTicks;
      OffsetOfSum(o, d.slotIdx[p.level], Size(p.level));
    }
  }

  lemma {:induction false} CascadeKeepsOut<T>(s: State<T>, l: nat, n: T, p: Place)
    requires CascadePoint(s, l) && n in s.timers
    requires JustSwept(s.dial, p) && p.level < l && s.timers[n].place != p
    ensures n in Cascade(s, l).timers && Cascade(s, l).timers[n].place != p
    decreases WHEEL_NUM - l
  {
    if l < WHEEL_NUM {
      var d := Advance(s.dial, l);
      CascadeReaches(s.dial, l);
      CascadeGoesOn(d, l + 1);
      SweptIsAligned(d, l + 1);
      SweepSlotMoves(s, l, d, n, s.timers[n]);
      NeverReenters(d, p, l, s.timers[n]);
      if d.slotIdx[l] == 0 {
        CascadeKeepsOut(SweepSlot(s, l, d), l + 1, n, p);
      }
    }
  }

  /** At a boundary every slot is still to be swept. */
  lemma SweptLater(d: Dial, l: nat, i: nat)
    requires Exact(d) && l < WHEEL_NUM && i < Size(l)
    ensures Aligned(d) && AlignedAt(d, l)
    ensures NextSweep(d, l, i)
            == d.ticks - d.ticks % SlotTicks(l) + (Offset(i, d.slotIdx[l], Size(l)) + 1) * SlotTicks(l)
    ensures NextSweep(d, l, i) > d.ticks
  {
    ExactIsAligned(d);
    assert CountsTo(d, l, d.ticks) && AlignedAt(d, l);
    var st, o := SlotTicks(l), Offset(i, d.slotIdx[l], Size(l));
    assert (d.ticks / st + (o + 1)) * st == d.ticks / st * st + (o + 1) * st;
    assert (o + 1) * st >= st;
  }

  /** One wheel of a cascade: what it does to a node waiting in slot p, and to the tick at which p is swept. */
  lemma CascadeStep<T>(s: State<T>, l: nat, n: T, p: Place)
    requires CascadePoint(s, l) && l < WHEEL_NUM && n in s.timers && s.timers[n].place == p && p.Slot? && IsPlace(p)
    ensures CascadeStepped(s, l, SweepSlot(s, l, Advance(s.dial, l)))
    ensures var r := SweepSlot(s, l, Advance(s.dial, l));
            && n in r.timers
            && (p == Slot(l, s.dial.slotIdx[l]) ==> r.timers[n].place != p && JustSwept(r.dial, p))
            && (p != Slot(l, s.dial.slotIdx[l]) ==> r.timers[n] == s.timers[n])
  {
    var d := Advance(s.dial, l);
    CascadeReaches(s.dial, l);
    CascadeGoesOn(d, l + 1);
    SweepSlotMoves(s, l, d, n, s.timers[n]);
    if p == Slot(l, s.dial.slotIdx[l]) {
      CurrentSlotIsNow(s.dial, l);
      NeverReenters(d, p, l, s.timers[n]);
    }
  }

  ghost predicate CascadeStepped<T>(s: State<T>, l: nat, r: State<T>)
    requires CascadePoint(s, l) && l < WHEEL_NUM
  {
    && r.dial == Advance(s.dial, l)
    && if r.dial.slotIdx[l] == 0 then CascadePoint(r, l + 1) && Cascade(s, l) == Cascade(r, l + 1)
       else Exact(r.dial) && Cascade(s, l) == r
  }

  /** A cascade moves the nodes in the slots due at this very tick out of them. */
  lemma {:induction false} CascadeTakes<T>(s: State<T>, l: nat, n: T, p: Place)
    requires CascadePoint(s, l) && n in s.timers && s.timers[n].place == p && p.Slot? && IsPlace(p) && l <= p.level
    requires Aligned(s.dial) && NextSweep(s.dial, p.level, p.idx) == s.dial.ticks
    ensures n in Cascade(s, l).timers && Cascade(s, l).timers[n].place != p
    decreases WHEEL_NUM - l
  {
    var r := SweepSlot(s, l, Advance(s.dial, l));
    CascadeStep(s, l, n, p);
    if p != Slot(l, s.dial.slotIdx[l]) {
      OtherSlotsWait(s.dial, l, p);
      if r.dial.slotIdx[l] == 0 {
        CascadeTakes(r, l + 1, n, p);
      } else {
        SweptLater(r.dial, p.level, p.idx);
      }
    } else if r.dial.slotIdx[l] == 0 {
      CascadeKeepsOut(r, l + 1, n, p);
    }
  }

  /** It leaves the others where they are. */
  lemma {:induction false} CascadeLeaves<T>(s: State<T>, l: nat, n: T, p: Place)
    requires CascadePoint(s, l) && n in s.timers && s.timers[n].place == p && p.Slot? && IsPlace(p)
    requires Aligned(s.dial) && NextSweep(s.dial, p.level, p.idx) != s.dial.ticks
    ensures n in Cascade(s, l).timers && Cascade(s, l).timers[n] == s.timers[n]
    ensures Aligned(Cascade(s, l).dial)
    ensures NextSweep(Cascade(s, l).dial, p.level, p.idx) == NextSweep(s.dial, p.level, p.idx)
    decreases WHEEL_NUM - l
  {
    ExactIsAligned(Cascade(s, l).dial);
    if l < WHEEL_NUM {
      CascadeStep(s, l, n, p);
      CurrentSlotIsNow(s.dial, l);
      OtherSlotsWait(s.dial, l, p);
      var r := SweepSlot(s, l, Advance(s.dial, l));
      if r.dial.slotIdx[l] == 0 {
        CascadeLeaves(r, l + 1, n, p);
      }
    }
  }

  lemma CurrentSlotIsNow(d: Dial, l: nat)
    requires Swept(d, l) && l < WHEEL_NUM && d.ticks % SlotTicks(l) == 0
    ensures Aligned(d) && AlignedAt(d, l)
    ensures NextSweep(d, l, d.slotIdx[l]) == d.ticks
    ensures JustSwept(Advance(d, l), Slot(l, d.slotIdx[l]))
  {
    SweptIsAligned(d, l);
    assert AlignedAt(d, l) && SweptAt(d, l, l);
    WholeSlot(d.ticks, l);
    CascadeReaches(d, l);
    SweptIsAligned(Advance(d, l), l + 1);
    assert AlignedAt(Advance(d, l), l);
    NextDigit(d.sweeps[l], Size(l));
  }

  lemma OtherSlotsWait(d: Dial, l: nat, p: Place)
    requires Swept(d, l) && l < WHEEL_NUM && d.ticks % SlotTicks(l) == 0
    requires p.Slot? && IsPlace(p) && p != Slot(l, d.slotIdx[l])
    ensures Aligned(d) && Aligned(Advance(d, l))
    ensures NextSweep(Advance(d, l), p.level, p.idx) == NextSweep(d, p.level, p.idx)
    ensures p.level == l ==> NextSweep(d, p.level, p.idx) > d.ticks
  {
    CurrentSlotIsNow(d, l);
    CascadeReaches(d, l);
    SweptIsAligned(Advance(d, l), l + 1);
    AdvanceKeepsSweeps(d, Advance(d, l), l, p.level, p.idx);
    if p.level == l {
      var o, st := Offset(p.idx, d.slotIdx[l], Size(l)), SlotTicks(l);
      assert o > 0;
      assert (d.sweeps[l] + o + 1) * st == (d.sweeps[l] + 1) * st + o * st;
      assert o * st > 0;
    }
  }

  lemma {:induction false} CascadeLeavesReady<T>(s: State<T>, l: nat, n: T)
    requires CascadePoint(s, l) && n in s.timers && s.timers[n].place == Ready
    ensures n in Cascade(s, l).timers && Cascade(s, l).timers[n] == s.timers[n]
    decreases WHEEL_NUM - l
  {
    if l < WHEEL_NUM {
      var d := Advance(s.dial, l);
      CascadeReaches(s.dial, l);
      CascadeGoesOn(d, l + 1);
      SweepSlotMoves(s, l, d, n, s.timers[n]);
      if d.slotIdx[l] == 0 {
        CascadeLeavesReady(SweepSlot(s, l, d), l + 1, n);
      }
    }
  }

  // ----- one tick -----

  lemma TickCounted(d: Dial, e: Dial, p: Place)
    requires Exact(d) && e == Advance(d, 0).(ticks := d.ticks + 1) && p.Slot? && IsPlace(p)
    ensures Aligned(d) && Aligned(e) && Swept(e, 1)
    ensures p == Slot(0, d.slotIdx[0]) ==> NextSweep(d, p.level, p.idx) == d.ticks + 1
    ensures p != Slot(0, d.slotIdx[0]) ==> NextSweep(e, p.level, p.idx) == NextSweep(d, p.level, p.idx)
    ensures p != Slot(0, d.slotIdx[0]) && p.level == 0 ==> NextSweep(d, p.level, p.idx) > d.ticks + 1
  {
    ExactIsAligned(d);
    TickStarts(d);
    SweptIsAligned(e, 1);
    assert AlignedAt(d, 0);
    if p != Slot(0, d.slotIdx[0]) {
      AdvanceKeepsSweeps(d, e, 0, p.level, p.idx);
    }
  }

  lemma TickStep<T>(s: State<T>, e: Dial)
    requires Conserved(s) && s.At(Moving) == [] && Exact(s.dial)
    requires e == Advance(s.dial, 0).(ticks := s.dial.ticks + 1)
    ensures Swept(e, 1)
    ensures e.slotIdx[0] == 0 ==>
              CascadePoint(SweepSlot(s, 0, e), 1) && Tick(s) == Cascade(SweepSlot(s, 0, e), 1)
    ensures e.slotIdx[0] != 0 ==> Exact(e) && Tick(s) == SweepSlot(s, 0, e)
  {
    TickStarts(s.dial);
    CascadeGoesOn(e, 1);
  }

  /** The tick that sweeps a slot moves every node out of it, straight to the ready list from the finest wheel. */
  lemma TickTakes<T>(s: State<T>, n: T, p: Place)
    requires Conserved(s) && s.At(Moving) == [] && Exact(s.dial)
    requires n in s.timers && s.timers[n].place == p && p.Slot? && IsPlace(p)
    requires Aligned(s.dial) && NextSweep(s.dial, p.level, p.idx) == s.dial.ticks + 1
    ensures n in Tick(s).timers && Tick(s).timers[n].place != p
    ensures p.level == 0 ==> Tick(s).timers[n].place == Ready
  {
    var e := Advance(s.dial, 0).(ticks := s.dial.ticks + 1);
    TickStep(s, e);
    TickCounted(s.dial, e, p);
    SweepSlotMoves(s, 0, e, n, s.timers[n]);
    var r := SweepSlot(s, 0, e);
    if p == Slot(0, s.dial.slotIdx[0]) {
      if e.slotIdx[0] == 0 {
        CascadeLeavesReady(r, 1, n);
      }
    } else if e.slotIdx[0] == 0 {
      CascadeTakes(r, 1, n, p);
    } else {
      SweptLater(e, p.level, p.idx);
    }
  }

  /** Any other tick leaves it where it is. */
  lemma TickLeaves<T>(s: State<T>, n: T, p: Place)
    requires Conserved(s) && s.At(Moving) == [] && Exact(s.dial)
    requires n in s.timers && s.timers[n].place == p && p.Slot? && IsPlace(p)
    requires Aligned(s.dial) && NextSweep(s.dial, p.level, p.idx) != s.dial.ticks + 1
    ensures n in Tick(s).timers && Tick(s).timers[n] == s.timers[n]
    ensures Aligned(Tick(s).dial) && NextSweep(Tick(s).dial, p.level, p.idx) == NextSweep(s.dial, p.level, p.idx)
  {
    var e := Advance(s.dial, 0).(ticks := s.dial.ticks + 1);
    TickStep(s, e);
    TickCounted(s.dial, e, p);
    SweepSlotMoves(s, 0, e, n, s.timers[n]);
    ExactIsAligned(Tick(s).dial);
    if e.slotIdx[0] == 0 {
      CascadeLeaves(SweepSlot(s, 0, e), 1, n, p);
    }
  }

  ghost predicate Waits<T>(s: State<T>, n: T, t: Timer, sweep: nat) {
    && Conserved(s) && s.At(Moving) == [] && Exact(s.dial)
    && n in s.timers && s.timers[n] == t && t.place.Slot? && IsPlace(t.place)
    && Aligned(s.dial) && NextSweep(s.dial, t.place.level, t.place.idx) == sweep
  }

  lemma TickWaits<T>(s: State<T>, n: T, t: Timer, sweep: nat)
    requires Waits(s, n, t, sweep) && s.dial.ticks + 1 != sweep
    ensures Waits(Tick(s), n, t, sweep)
  {
    TickLeaves(s, n, t.place);
  }

  /** A node in a slot stays there until the tick that sweeps it. */
  lemma {:induction false} WaitsForItsSweep<T>(s: State<T>, n: T, t: Timer, sweep: nat, k: nat)
    requires Waits(s, n, t, sweep) && s.dial.ticks + k < sweep
    ensures Waits(Ticks(s, k), n, t, sweep)
    decreases k
  {
    hide Tick;
    if k > 0 {
      WaitsForItsSweep(s, n, t, sweep, k - 1);
      TickWaits(Ticks(s, k - 1), n, t, sweep);
    }
  }

  /** A node in slot i of wheel l, o slots ahead, stays there until tick M - M % cap + (o + 1) * cap, where M is the
      tick count now and cap the length of a slot of wheel l; and that tick moves it. */
  lemma SweptOnExactlyThatTick<T>(s: State<T>, n: T, p: Place, cap: nat, o: nat, sweep: nat, k: nat)
    requires Conserved(s) && s.At(Moving) == [] && Exact(s.dial)
    requires n in s.timers && s.timers[n].place == p && p.Slot? && IsPlace(p)
    requires cap == SlotTicks(p.level) && s.dial.slotIdx[p.level] < Size(p.level)
    requires o == Offset(p.idx, s.dial.slotIdx[p.level], Size(p.level))
    requires sweep == s.dial.ticks - s.dial.ticks % cap + (o + 1) * cap
    ensures sweep > s.dial.ticks
    ensures s.dial.ticks + k <= sweep ==> n in Ticks(s, k).timers
    ensures s.dial.ticks + k < sweep ==> Ticks(s, k).timers[n] == s.timers[n]
    ensures s.dial.ticks + k == sweep ==> Ticks(s, k).timers[n].place != p
    ensures s.dial.ticks + k == sweep && p.level == 0 ==> Ticks(s, k).timers[n].place == Ready
  {
    hide Tick;
    SweptLater(s.dial, p.level, p.idx);
    var t := s.timers[n];
    if s.dial.ticks + k < sweep {
      WaitsForItsSweep(s, n, t, sweep, k);
    } else if s.dial.ticks + k == sweep {
      WaitsForItsSweep(s, n, t, sweep, k - 1);
      TickTakes(Ticks(s, k - 1), n, p);
    }
  }
}
