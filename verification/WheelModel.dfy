/** What the timing wheel does, on values: every ring is a sequence, every operation a function. T names a timer
    node. */
module WheelModel {
  import opened Common
  import opened WheelLayout

  /** The ring a live node is linked into. Moving is the chain cut off a slot while that slot is swept, Running holds
      the node whose callback is being called. */
  datatype Place = Slot(level: nat, idx: nat) | Ready | Moving | Running

  /** when is the node's own field. armedAt and delay (the last Refresh time at arming and the delay passed then), base
      (the clock at arming) and lost (what the wheel had lost by then) are history. */
  datatype Timer = Timer(when: int, armedAt: int, delay: nat, base: int, lost: nat, place: Place) {
    ghost function Latest(): int { Max(when, armedAt + delay) }
    ghost function Earliest(): int { if when < armedAt + delay then when else armedAt + delay }
  }

  function Max(a: int, b: int): int { if a > b then a else b }

  /** slotIdx and rem are the fields slotIdx and _time_elapse. The rest is history: sweeps made of each wheel, ticks in
      all, the time of tick 0, the last Refresh time, the last clock reading, the largest elapse so far, the
      milliseconds lost when the sum of rem and elapse wrapped, the most by which a reading of the clock was ahead of
      the Refresh after it, and the largest delay of an AddTimer. */
  datatype Dial = Dial(
    slotIdx: seq<nat>, rem: nat,
    sweeps: seq<nat>, ticks: nat, origin: int, now: int, clock: int, maxElapse: nat, lost: nat,
    ahead: nat, maxDelay: nat)
  {
    ghost function Margin(): int { Max(maxElapse, TICK_LEN) }

    /** The margin for timers whose deadline does not fit 32 bits. */
    ghost function WideMargin(): int { maxElapse + ahead + TICK_LEN }

    /** How far ahead of the wheel a deadline can be once its timer is ready. */
    ghost function Reach(): int {
      TICK_LEN + Max(maxElapse + ahead, clock - now)
    }

    /** No delay given to AddTimer comes as near to 2^32 as clock readings have been ahead. */
    ghost predicate DelaysFit() { maxDelay + ahead < UINT32 }

    /** Nor has a Refresh, or a reading of the clock since the last one, been longer than about 24 days. */
    ghost predicate Regular() { DelaysFit() && Reach() <= UINT32 / 2 }

    /** Whether the time left to t's deadline has always fitted 32 bits when Refresh had to look at it. */
    ghost predicate Fits(t: Timer) { t.when - t.armedAt < UINT32 || t.when - t.base + ahead < UINT32 }

    /** The wheel's own time. */
    ghost function WheelTime(): int { origin + Millis(ticks) }
  }

  datatype State<!T> = State(dial: Dial, rings: map<Place, seq<T>>, timers: map<T, Timer>) {
    ghost function At(p: Place): seq<T> {
      if p in rings then rings[p] else []
    }

    ghost predicate Idle() { At(Moving) == [] && At(Ready) == [] && At(Running) == [] }
  }

  ghost predicate IsPlace(p: Place) {
    p.Slot? ==> p.level < WHEEL_NUM && p.idx < Size(p.level)
  }

  // ----- the dial -----

  ghost predicate HasWheels(d: Dial) { |d.slotIdx| == |d.sweeps| == WHEEL_NUM }

  ghost predicate AlignedAt(d: Dial, l: nat)
    requires HasWheels(d) && l < WHEEL_NUM
  {
    d.slotIdx[l] < Size(l) && d.slotIdx[l] == d.sweeps[l] % Size(l) && d.sweeps[l] * SlotTicks(l) <= d.ticks
  }

  /** Slot positions count sweeps, and no wheel is ahead of the tick count. */
  ghost predicate Aligned(d: Dial) {
    && HasWheels(d)
    && (forall l {:trigger AlignedAt(d, l)} | 0 <= l < WHEEL_NUM :: AlignedAt(d, l))
    && d.sweeps[0] == d.ticks
  }

  ghost predicate CountsTo(d: Dial, l: nat, ticks: nat)
    requires HasWheels(d) && l < WHEEL_NUM
  {
    d.sweeps[l] == ticks / SlotTicks(l) && d.slotIdx[l] == d.sweeps[l] % Size(l)
  }

  ghost predicate SweptAt(d: Dial, l: nat, j: nat)
    requires HasWheels(d) && j < WHEEL_NUM && d.ticks > 0
  {
    CountsTo(d, j, if j < l then d.ticks else d.ticks - 1)
  }

  /** Wheels below l have been swept for the current tick, the others not yet. */
  ghost predicate Swept(d: Dial, l: nat) {
    && HasWheels(d) && 0 < l <= WHEEL_NUM && d.ticks > 0
    && (forall j {:trigger SweptAt(d, l, j)} | 0 <= j < WHEEL_NUM :: SweptAt(d, l, j))
  }

  /** At a tick boundary the slot positions are the mixed-radix digits of the tick count. */
  ghost predicate Exact(d: Dial) {
    && HasWheels(d)
    && (forall l {:trigger CountsTo(d, l, d.ticks)} | 0 <= l < WHEEL_NUM :: CountsTo(d, l, d.ticks))
  }

  /** The tick that sweeps slot i of wheel l next. */
  ghost function NextSweep(d: Dial, l: nat, i: nat): nat
    requires Aligned(d) && l < WHEEL_NUM && i < Size(l)
  {
    assert AlignedAt(d, l);
    (d.sweeps[l] + Offset(i, d.slotIdx[l], Size(l)) + 1) * SlotTicks(l)
  }

  /** Wheel l moves on by one slot. */
  ghost function Advance(d: Dial, l: nat): Dial
    requires HasWheels(d) && l < WHEEL_NUM
  {
    d.(slotIdx := d.slotIdx[l := if d.slotIdx[l] + 1 >= Size(l) then 0 else d.slotIdx[l] + 1],
       sweeps := d.sweeps[l := d.sweeps[l] + 1])
  }

  /** The slot that _AddTimerNode picks. */
  ghost function SlotFor(d: Dial, delay: nat): (p: Place)
    requires HasWheels(d) && delay < UINT32
    ensures p.Slot? && IsPlace(p)
  {
    var tickCnt := TicksIn(delay);
    var l := LevelOf(tickCnt);
    if l == 0 then Slot(0, (d.slotIdx[0] + tickCnt) % Size(0))
    else Slot(l, (d.slotIdx[l] + tickCnt / SlotTicks(l) - 1) % Size(l))
  }

  /** Where the sweep of wheel l puts a node: on the ready list when its wheel is the finest or it is due, otherwise
      back into a slot by the time it has left, cut to 32 bits. */
  ghost function SettlePlace(d: Dial, l: nat, t: Timer): (p: Place)
    requires HasWheels(d)
    ensures IsPlace(p) && p != Moving && p != Running
  {
    if l == 0 || t.when <= d.now then Ready else SlotFor(d, Uint32(t.when - d.now))
  }

  lemma SweptIsAligned(d: Dial, l: nat)
    requires Swept(d, l)
    ensures Aligned(d)
  {
    forall j | 0 <= j < WHEEL_NUM ensures AlignedAt(d, j) {
      assert SweptAt(d, l, j);
      DivMulAtMost(d.ticks, SlotTicks(j));
      DivMulAtMost(d.ticks - 1, SlotTicks(j));
    }
    assert SweptAt(d, l, 0);
  }

  lemma ExactIsAligned(d: Dial)
    requires Exact(d)
    ensures Aligned(d)
  {
    forall l | 0 <= l < WHEEL_NUM ensures AlignedAt(d, l) {
      assert CountsTo(d, l, d.ticks);
      DivMulAtMost(d.ticks, SlotTicks(l));
    }
    assert CountsTo(d, 0, d.ticks);
  }

  /** A cascade reaches wheel l just when the tick count completes one of its slots; then l too has been swept. */
  lemma CascadeReaches(d: Dial, l: nat)
    requires Swept(d, l) && l < WHEEL_NUM && d.ticks % SlotTicks(l) == 0
    ensures Swept(Advance(d, l), l + 1)
  {
    var e, m := Advance(d, l), l + 1;
    WholeSlot(d.ticks, l);
    NextDigit(d.sweeps[l], Size(l));
    forall j | 0 <= j < WHEEL_NUM ensures SweptAt(e, m, j) {
      assert SweptAt(d, l, j);
    }
  }

  /** It goes on to the next wheel when this one wraps, and otherwise no coarser wheel has completed a slot. */
  lemma CascadeGoesOn(d: Dial, l: nat)
    requires Swept(d, l) && d.ticks % SlotTicks(l - 1) == 0
    ensures d.slotIdx[l - 1] == 0 && l < WHEEL_NUM ==> d.ticks % SlotTicks(l) == 0
    ensures d.slotIdx[l - 1] != 0 || l == WHEEL_NUM ==> Exact(d)
  {
    assert SweptAt(d, l, l - 1);
    if l < WHEEL_NUM {
      SlotsNest(d.ticks, l - 1);
    }
    if d.slotIdx[l - 1] != 0 || l == WHEEL_NUM {
      forall j | 0 <= j < WHEEL_NUM ensures CountsTo(d, j, d.ticks) {
        assert SweptAt(d, l, j);
        if l <= j {
          PartSlots(d.ticks, l, j);
        }
      }
    }
  }

  /** Counting a tick on the finest wheel. */
  lemma TickStarts(d: Dial)
    requires Exact(d)
    ensures Swept(Advance(d, 0).(ticks := d.ticks + 1), 1)
  {
    var e := Advance(d, 0).(ticks := d.ticks + 1);
    assert CountsTo(d, 0, d.ticks);
    NextDigit(d.sweeps[0], Size(0));
    forall j | 0 <= j < WHEEL_NUM ensures SweptAt(e, 1, j) {
      assert CountsTo(d, j, d.ticks);
    }
  }

  /** The dial reads the same whatever the times. */
  lemma SameCount(d: Dial, e: Dial)
    requires Exact(d) && e.slotIdx == d.slotIdx && e.sweeps == d.sweeps && e.ticks == d.ticks
    ensures Exact(e) && Aligned(d) && Aligned(e)
  {
    forall l | 0 <= l < WHEEL_NUM ensures CountsTo(e, l, e.ticks) {
      assert CountsTo(d, l, d.ticks);
    }
    ExactIsAligned(d);
    ExactIsAligned(e);
  }

  // ----- rings -----

  ghost predicate Holds<T>(s: State<T>, p: Place) {
    && Distinct(s.At(p))
    && (forall k | 0 <= k < |s.At(p)| :: s.At(p)[k] in s.timers && s.timers[s.At(p)[k]].place == p)
  }

  ghost predicate Listed<T>(s: State<T>, n: T)
    requires n in s.timers
  {
    IsPlace(s.timers[n].place) && n in s.At(s.timers[n].place)
  }

  /** Every live node is in exactly one ring, once. */
  ghost predicate Conserved<T>(s: State<T>) {
    && (forall p {:trigger Holds(s, p)} :: Holds(s, p))
    && (forall n {:trigger Listed(s, n)} | n in s.timers :: Listed(s, n))
  }

  lemma SameRings<T>(s: State<T>, r: State<T>)
    requires Conserved(s) && r.rings == s.rings && r.timers == s.timers
    ensures Conserved(r)
  {
    forall p ensures Holds(r, p) {
      assert Holds(s, p);
    }
    forall x | x in r.timers ensures Listed(r, x) {
      assert Listed(s, x);
    }
  }

  ghost function IndexOf<T>(ns: seq<T>, n: T): (k: nat)
    requires n in ns
    ensures k < |ns| && ns[k] == n
  {
    if ns[0] == n then 0 else 1 + IndexOf(ns[1..], n)
  }

  ghost function Without<T>(ns: seq<T>, n: T): seq<T>
    requires n in ns
  {
    ns[..IndexOf(ns, n)] + ns[IndexOf(ns, n) + 1..]
  }

  lemma WithoutAt<T>(ns: seq<T>, n: T, i: int)
    requires n in ns
    ensures var rest := Without(ns, n); var k := IndexOf(ns, n);
            |rest| == |ns| - 1 && (0 <= i < |rest| ==> rest[i] == if i < k then ns[i] else ns[i + 1])
  {
  }

  lemma WithoutKeepsTheRest<T>(ns: seq<T>, n: T)
    requires n in ns && Distinct(ns)
    ensures Distinct(Without(ns, n))
    ensures forall x :: x in Without(ns, n) <==> x in ns && x != n
  {
  }

  /** A new node, linked in last in its ring: `node->prev = slot->prev; ...; slot->prev = node`. */
  ghost function Enter<T>(s: State<T>, n: T, t: Timer): State<T> {
    s.(rings := s.rings[t.place := s.At(t.place) + [n]], timers := s.timers[n := t])
  }

  lemma EnterConserves<T>(s: State<T>, n: T, t: Timer)
    requires Conserved(s) && n !in s.timers && IsPlace(t.place)
    ensures Conserved(Enter(s, n, t))
  {
    var r := Enter(s, n, t);
    forall p ensures Holds(r, p) {
      assert Holds(s, p);
    }
    forall x | x in r.timers ensures Listed(r, x) {
      if x == n {
        assert r.At(t.place)[|s.At(t.place)|] == n;
      } else {
        assert Listed(s, x);
      }
    }
  }

  /** A node unlinked and deleted. */
  ghost function Leave<T>(s: State<T>, n: T): State<T>
    requires Conserved(s) && n in s.timers
  {
    assert Listed(s, n);
    var p := s.timers[n].place;
    s.(rings := s.rings[p := Without(s.At(p), n)], timers := s.timers - {n})
  }

  lemma LeaveConserves<T>(s: State<T>, n: T)
    requires Conserved(s) && n in s.timers
    ensures Conserved(Leave(s, n))
  {
    var p, r := s.timers[n].place, Leave(s, n);
    assert Listed(s, n);
    assert Holds(s, p);
    WithoutKeepsTheRest(s.At(p), n);
    forall q ensures Holds(r, q) {
      assert Holds(s, q);
      forall k | 0 <= k < |r.At(q)| ensures r.At(q)[k] in r.timers && r.timers[r.At(q)[k]].place == q {
        assert r.At(q)[k] in r.At(q);
        assert r.At(q)[k] in s.At(q);
      }
    }
    forall x | x in r.timers ensures Listed(r, x) {
      assert Listed(s, x);
    }
  }

  /** A node unlinked from its ring and linked in last in the ring named by t, with the fields of t. */
  ghost function Relink<T>(s: State<T>, n: T, t: Timer): (r: State<T>)
    requires Conserved(s) && n in s.timers && IsPlace(t.place)
    ensures Conserved(r) && r.timers == s.timers[n := t] && r.dial == s.dial
  {
    LeaveConserves(s, n);
    EnterConserves(Leave(s, n), n, t);
    var r := Enter(Leave(s, n), n, t);
    assert r.timers == s.timers[n := t];
    r
  }

  // ----- sweeping a slot -----

  /** Cut the ring of a slot off its sentinel: its nodes become the moving chain. */
  ghost function CutOff<T>(s: State<T>, p: Place): (r: State<T>)
    requires Conserved(s) && s.At(Moving) == [] && p.Slot?
    ensures Conserved(r) && r.dial == s.dial && r.At(Running) == s.At(Running)
  {
    var r := s.(
      rings := s.rings[p := []][Moving := s.At(p)],
      timers := map n | n in s.timers :: if s.timers[n].place == p then s.timers[n].(place := Moving) else s.timers[n]);
    assert Conserved(r) by { CutOffConserves(s, p, r); }
    r
  }

  lemma CutOffConserves<T>(s: State<T>, p: Place, r: State<T>)
    requires Conserved(s) && s.At(Moving) == [] && p.Slot?
    requires r.rings == s.rings[p := []][Moving := s.At(p)]
    requires r.timers == map n | n in s.timers ::
                           if s.timers[n].place == p then s.timers[n].(place := Moving) else s.timers[n]
    ensures Conserved(r)
  {
    forall q ensures Holds(r, q) {
      assert Holds(s, q) && Holds(s, p);
    }
    forall x | x in r.timers ensures Listed(r, x) {
      assert Listed(s, x);
    }
  }

  /** One step of the loop that empties the chain cut off a slot of wheel l. */
  ghost function SettleHead<T>(s: State<T>, l: nat): (r: State<T>)
    requires Conserved(s) && HasWheels(s.dial) && s.At(Moving) != []
    ensures Conserved(r) && r.dial == s.dial && r.At(Moving) == s.At(Moving)[1..] && r.At(Running) == s.At(Running)
  {
    assert Holds(s, Moving);
    var n := s.At(Moving)[0];
    var t := s.timers[n];
    Relink(s, n, t.(place := SettlePlace(s.dial, l, t)))
  }

  ghost function SettleAll<T>(s: State<T>, l: nat): (r: State<T>)
    requires Conserved(s) && HasWheels(s.dial)
    ensures Conserved(r) && r.dial == s.dial && r.At(Moving) == [] && r.At(Running) == s.At(Running)
    decreases |s.At(Moving)|
  {
    if s.At(Moving) == [] then s else SettleAll(SettleHead(s, l), l)
  }

  /** The current slot of wheel l is swept, and the wheel moved on. The dial already reads d. */
  ghost function SweepSlot<T>(s: State<T>, l: nat, d: Dial): (r: State<T>)
    requires Conserved(s) && s.At(Moving) == [] && HasWheels(s.dial) && HasWheels(d) && l < WHEEL_NUM
    ensures Conserved(r) && r.dial == d && r.At(Moving) == [] && r.At(Running) == s.At(Running)
  {
    var c := CutOff(s, Slot(l, s.dial.slotIdx[l]));
    SameRings(c, c.(dial := d));
    SettleAll(c.(dial := d), l)
  }

  // ----- ticks and cascades -----

  /** Wheel l - 1 has wrapped, so wheel l is next. */
  ghost predicate CascadePoint<T>(s: State<T>, l: nat) {
    && Conserved(s) && s.At(Moving) == []
    && Swept(s.dial, l) && s.dial.ticks % SlotTicks(l - 1) == 0
    && (l < WHEEL_NUM ==> s.dial.ticks % SlotTicks(l) == 0)
  }

  ghost function Cascade<T>(s: State<T>, l: nat): (r: State<T>)
    requires CascadePoint(s, l)
    ensures Conserved(r) && r.At(Moving) == [] && r.At(Running) == s.At(Running)
    ensures Exact(r.dial) && r.dial == s.dial.(slotIdx := r.dial.slotIdx, sweeps := r.dial.sweeps)
    decreases WHEEL_NUM - l
  {
    if l >= WHEEL_NUM then
      CascadeGoesOn(s.dial, l);
      s
    else
      CascadeReaches(s.dial, l);
      CascadeGoesOn(Advance(s.dial, l), l + 1);
      var r := SweepSlot(s, l, Advance(s.dial, l));
      if r.dial.slotIdx[l] == 0 then Cascade(r, l + 1) else r
  }

  /** One turn of the loop in Refresh. */
  ghost function Tick<T>(s: State<T>): (r: State<T>)
    requires Conserved(s) && s.At(Moving) == [] && Exact(s.dial)
    ensures Conserved(r) && r.At(Moving) == [] && r.At(Running) == s.At(Running)
    ensures Exact(r.dial)
    ensures r.dial == s.dial.(slotIdx := r.dial.slotIdx, sweeps := r.dial.sweeps, ticks := s.dial.ticks + 1)
  {
    TickStarts(s.dial);
    var d := Advance(s.dial, 0).(ticks := s.dial.ticks + 1);
    CascadeGoesOn(d, 1);
    var r := SweepSlot(s, 0, d);
    if r.dial.slotIdx[0] == 0 then Cascade(r, 1) else r
  }

  ghost function Ticks<T>(s: State<T>, n: nat): (r: State<T>)
    requires Conserved(s) && s.At(Moving) == [] && Exact(s.dial)
    ensures Conserved(r) && r.At(Moving) == [] && r.At(Running) == s.At(Running)
    ensures Exact(r.dial)
    ensures r.dial == s.dial.(slotIdx := r.dial.slotIdx, sweeps := r.dial.sweeps, ticks := s.dial.ticks + n)
  {
    if n == 0 then s else Tick(Ticks(s, n - 1))
  }

  // ----- what can happen to a wheel -----

  /** Calls into the wheel, and the two halves of each timer callback: Fire calls it, Return is its result. */
  datatype Event<T> =
    | Add(node: T, delay: nat, clock: int)
    | Del(node: T)
    | Refresh(elapse: nat)
    | Fire
    | Return(again: int)

  /** The wheel is that many ticks, the milliseconds in the counter and those lost behind the last Refresh. */
  ghost predicate InTime(d: Dial, ticks: nat) {
    && d.now == d.WheelTime() + Millis(ticks) + d.rem + d.lost && d.rem < TICK_LEN
    && d.now <= d.clock && d.maxDelay < UINT32
    && (d.lost > 0 ==> d.maxElapse + TICK_LEN > UINT32)
  }

  ghost predicate Boundary<T>(s: State<T>) {
    && Conserved(s) && s.At(Moving) == [] && |s.At(Running)| <= 1
    && Exact(s.dial)
    && InTime(s.dial, 0)
  }

  /** What a caller may do: AddTimer's clock readings never go back, Refresh gets the time since the last Refresh; a
      callback deletes live nodes only and not the next one on the ready list. */
  ghost predicate Legal<T>(s: State<T>, e: Event<T>) {
    match e
    case Add(n, delay, clock) => n !in s.timers && delay < UINT32 && s.dial.clock <= clock
    case Del(n) => n in s.timers && (s.At(Ready) != [] ==> n != s.At(Ready)[0])
    case Refresh(elapse) => s.Idle() && elapse < UINT32
    case Fire => s.At(Running) == [] && s.At(Ready) != []
    case Return(again) => s.At(Running) != [] && again < UINT32 / 2
  }

  /** AddTimer has read the clock. */
  ghost function Read(d: Dial, clock: int, delay: nat): Dial {
    d.(clock := clock, maxDelay := Max(d.maxDelay, delay))
  }

  ghost function AddTimer<T>(s: State<T>, n: T, delay: nat, clock: int): (r: State<T>)
    requires Boundary(s) && Legal(s, Add(n, delay, clock))
    ensures Boundary(r)
  {
    var s1 := s.(dial := Read(s.dial, clock, delay));
    var t := Timer(clock + delay, s.dial.now, delay, clock, s.dial.lost, SlotFor(s.dial, delay));
    SameRings(s, s1);
    SameCount(s.dial, s1.dial);
    EnterConserves(s1, n, t);
    Enter(s1, n, t)
  }

  /** A node whose callback is running is left to the callback's return. */
  ghost function DelTimer<T>(s: State<T>, n: T): (r: State<T>)
    requires Boundary(s) && Legal(s, Del(n))
    ensures Boundary(r)
  {
    if s.timers[n].place == Running then s else
    LeaveConserves(s, n);
    Leave(s, n)
  }

  /** The sum in the 32-bit millisecond counter. */
  ghost function Counter(d: Dial, elapse: nat): nat { Uint32(d.rem + elapse) }

  /** The counter loses nothing just when its sum fits 32 bits, and otherwise 2^32 milliseconds. */
  lemma CounterKeeps(d: Dial, elapse: nat)
    requires d.rem < TICK_LEN && elapse < UINT32
    ensures Counter(d, elapse) == d.rem + elapse <==> d.rem + elapse < UINT32
    ensures Counter(d, elapse) + UINT32 == d.rem + elapse <==> d.rem + elapse >= UINT32
    ensures Millis(TicksIn(Counter(d, elapse))) + PartTick(Counter(d, elapse)) == Counter(d, elapse) <= d.rem + elapse
  {
  }

  ghost function Started(d: Dial, elapse: nat): Dial {
    d.(now := d.now + elapse, clock := Max(d.clock, d.now + elapse), rem := PartTick(Counter(d, elapse)),
       maxElapse := Max(d.maxElapse, elapse), ahead := Max(d.ahead, d.clock - (d.now + elapse)),
       lost := d.lost + (d.rem + elapse - Counter(d, elapse)))
  }

  lemma StartedCounts(d: Dial, elapse: nat)
    requires InTime(d, 0) && elapse < UINT32
    ensures InTime(Started(d, elapse), TicksIn(Counter(d, elapse)))
  {
    CounterKeeps(d, elapse);
  }

  /** The part of Refresh before the callbacks: every tick that has elapsed. */
  ghost function SweepTicks<T>(s: State<T>, elapse: nat): (r: State<T>)
    requires Boundary(s) && Legal(s, Event<T>.Refresh(elapse))
    ensures Boundary(r)
  {
    var s1 := s.(dial := Started(s.dial, elapse));
    SameRings(s, s1);
    SameCount(s.dial, s1.dial);
    StartedCounts(s.dial, elapse);
    assert |s1.At(Running)| == 0 && Exact(s1.dial);
    var r := Ticks(s1, TicksIn(Counter(s.dial, elapse)));
    r
  }

  /** The next node leaves the ready list and its callback is called. */
  ghost function FireNext<T>(s: State<T>): (r: State<T>)
    requires Boundary(s) && Legal(s, Event<T>.Fire)
    ensures Boundary(r)
  {
    var n := s.At(Ready)[0];
    assert Holds(s, Ready);
    Relink(s, n, s.timers[n].(place := Running))
  }

  /** The callback returned: re-arm the node that many milliseconds on, or delete it. */
  ghost function Returned<T>(s: State<T>, again: int): (r: State<T>)
    requires Boundary(s) && Legal(s, Event<T>.Return(again))
    ensures Boundary(r)
  {
    var n := s.At(Running)[0];
    assert Holds(s, Running);
    if again > 0 then
      Relink(s, n, Timer(s.timers[n].when + again, s.dial.now, again, s.dial.now, s.dial.lost, SlotFor(s.dial, again)))
    else
      LeaveConserves(s, n);
      Leave(s, n)
  }

  ghost function Apply<T>(s: State<T>, e: Event<T>): (r: State<T>)
    requires Boundary(s) && Legal(s, e)
    ensures Boundary(r)
  {
    match e
    case Add(n, delay, clock) => AddTimer(s, n, delay, clock)
    case Del(n) => DelTimer(s, n)
    case Refresh(elapse) => SweepTicks(s, elapse)
    case Fire => FireNext(s)
    case Return(again) => Returned(s, again)
  }
}
