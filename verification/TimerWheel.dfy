/** The timing wheel as the source keeps it: rings of doubly linked nodes with a sentinel each, rewired in place. Every
    operation is proved to do to the rings what WheelModel says. */
module TimerWheel {
  import opened Common
  import opened WheelLayout
  import Model = WheelModel
  import opened WheelTheorems
  import opened WheelOrder

  type Place = Model.Place
  type Timer = Model.Timer
  type State = Model.State<NodeLink>
  type Event = Model.Event<NodeLink>

  /** A TimeNode begins with its NodeLink and the source casts between the two, so one class serves for timers and for
      the sentinels of the rings (whose when and funcIng are not used). home names the ring of a sentinel. */
  class NodeLink {
    var prev: NodeLink
    var next: NodeLink
    var when: int
    var funcIng: bool
    ghost const home: Place

    constructor (when: int, ghost home: Place)
      ensures prev == next == this && this.when == when && !funcIng && this.home == home
    {
      prev, next := this, this;
      this.when, funcIng := when, false;
      this.home := home;
    }
  }

  /** One wheel: a sentinel for each slot, and the slot to sweep next. */
  class Wheel {
    const size: nat
    const slots: seq<NodeLink>
    var slotIdx: nat

    constructor (level: nat)
      requires level < WHEEL_NUM
      ensures NewlyMade(this, level) && fresh(slots)
    {
      var n := Size(level);
      var links: seq<NodeLink> := [];
      for i := 0 to n
        invariant |links| == i
        invariant forall k | 0 <= k < i ::
                    var h := links[k];
                    fresh(h) && h.home == Model.Slot(level, k) && h.prev == h && h.next == h
      {
        var h := new NodeLink(0, Model.Slot(level, i));
        links := links + [h];
      }
      size, slots, slotIdx := n, links, 0;
    }
  }

  /** A ring: the sentinel h and the nodes ns after it, linked both ways. */
  ghost predicate Linked(h: NodeLink, ns: seq<NodeLink>)
    reads h, ns
  {
    && h.next == (if ns == [] then h else ns[0])
    && h.prev == (if ns == [] then h else ns[|ns| - 1])
    && Chained(ns, h)
    && (ns != [] ==> ns[0].prev == h)
  }

  /** Nodes cut off their sentinel: the links after the first node are good both ways, the last one leads to end. */
  ghost predicate Chained(ns: seq<NodeLink>, end: NodeLink)
    reads ns
  {
    && (forall k {:trigger ns[k].next} | 0 <= k < |ns| :: ns[k].next == if k == |ns| - 1 then end else ns[k + 1])
    && (forall k {:trigger ns[k].prev} | 0 < k < |ns| :: ns[k].prev == ns[k - 1])
  }

  /** The four lines by which _AddTimerNode and AddToReadyNode put a node last in a ring. */
  method LinkLast(slot: NodeLink, node: NodeLink, ghost ns: seq<NodeLink>)
    requires Linked(slot, ns) && Distinct(ns) && slot !in ns && node !in ns && node != slot
    modifies node`prev, node`next, slot`prev, slot.prev`next
    ensures Linked(slot, ns + [node])
  {
    node.prev := slot.prev;
    node.prev.next := node;
    node.next := slot;
    slot.prev := node;
  }

  /** The lines of DelTimer that take a node out of a ring, or out of a chain that ends at h from behind its first. */
  method Unlink(ghost h: NodeLink, node: NodeLink, ghost ns: seq<NodeLink>)
    requires Chained(ns, h) && Distinct(ns) && h !in ns && node in ns
    requires node == ns[0] ==> Linked(h, ns)
    modifies node`prev, node`next, node.prev`next, node.next`prev
    ensures Chained(Model.Without(ns, node), h)
    ensures old(Linked(h, ns)) ==> Linked(h, Model.Without(ns, node))
  {
    hide Model.Without;
    ghost var k := Model.IndexOf(ns, node);
    assert k > 0 ==> ns[k].prev == ns[k - 1];
    assert ns[k].next == if k == |ns| - 1 then h else ns[k + 1];
    node.prev.next := node.next;
    node.next.prev := node.prev;
    node.prev := node;
    node.next := node;
    ghost var rest := Model.Without(ns, node);
    Model.WithoutAt(ns, node, 0);
    Model.WithoutAt(ns, node, |ns| - 2);
    forall i {:trigger rest[i].next} | 0 <= i < |rest|
      ensures rest[i].next == if i == |rest| - 1 then h else rest[i + 1]
    {
      Model.WithoutAt(ns, node, i);
      Model.WithoutAt(ns, node, i + 1);
    }
    forall i {:trigger rest[i].prev} | 0 < i < |rest| ensures rest[i].prev == rest[i - 1] {
      Model.WithoutAt(ns, node, i - 1);
      Model.WithoutAt(ns, node, i);
    }
  }

  /** A run of the model. */
  datatype Log = Log(ss: seq<State>, es: seq<Event>)

  ghost predicate LeadsTo(log: Log, s: State) {
    Run(log.ss, log.es) && IsNew(log.ss[0]) && Last(log.ss) == s
  }

  ghost predicate Continues(log: Log, more: Log) {
    log.ss <= more.ss && log.es <= more.es
  }

  /** No Refresh since. */
  ghost predicate Calls(log: Log, more: Log) {
    Continues(log, more) && forall i {:trigger more.es[i]} | |log.es| <= i < |more.es| :: !more.es[i].Refresh?
  }

  /** Since event k every timer of q has been called or deleted just once while ready, and no other has been called. */
  ghost predicate EachDeparted(log: Log, k: nat, q: seq<NodeLink>) {
    && k <= |log.es| < |log.ss|
    && (forall n | n in q :: Departures(log.ss, log.es, k, |log.es|, n) == 1)
    && (forall i {:trigger log.es[i]} | k <= i < |log.es| && log.es[i].Fire? ::
          log.ss[i].At(Model.Ready) != [] && log.ss[i].At(Model.Ready)[0] in q)
  }

  lemma AllDeparted(was: Log, log: Log, s: State, r: State)
    requires LeadsTo(was, s) && LeadsTo(log, r) && Calls(was, log) && r.At(Model.Ready) == []
    ensures EachDeparted(log, |was.es|, s.At(Model.Ready))
  {
    assert log.ss[|was.es|] == s && log.ss[|log.es|] == r;
    forall n | n in s.At(Model.Ready) ensures Departures(log.ss, log.es, |was.es|, |log.es|, n) == 1 {
      ReadyDepartOnce(log.ss, log.es, |was.es|, |log.es|, n);
    }
    forall i {:trigger log.es[i]} | |was.es| <= i < |log.es| && log.es[i].Fire?
      ensures log.ss[i].At(Model.Ready) != [] && log.ss[i].At(Model.Ready)[0] in s.At(Model.Ready)
    {
      assert Step(log.ss[i], log.es[i], log.ss[i + 1]);
      ReadyDepartOnce(log.ss, log.es, |was.es|, i, log.ss[i].At(Model.Ready)[0]);
    }
  }

  ghost function Extend(log: Log, s: State, e: Event): (more: Log)
    requires LeadsTo(log, s) && Model.Boundary(s) && Model.Legal(s, e)
    ensures LeadsTo(more, Model.Apply(s, e)) && Continues(log, more) && more.es == log.es + [e]
  {
    OneMore(log.ss, log.es, e);
    Log(log.ss + [Model.Apply(s, e)], log.es + [e])
  }

  class TimeWheel {
    const wheels: seq<Wheel>
    const readyNode: NodeLink
    ghost const heads: set<NodeLink>  // every sentinel
    var timeElapse: nat
    var handles: set<NodeLink>    // what callers hold: the live timers; and clock, the last reading of TimeMS()
    var clock: int
    ghost var m: State            // what the rings and fields below mean
    ghost var log: Log            // everything that has happened
    ghost var firing: bool        // DoTimeOutCallBack is running: the ready list is only a chain
    ghost var sweepEnd: NodeLink  // where the chain of a slot being swept ends
    ghost var results: seq<int>   // what the callbacks have returned

    ghost predicate Shape() {
      && |wheels| == WHEEL_NUM
      && (forall l | 0 <= l < WHEEL_NUM :: wheels[l].size == |wheels[l].slots| == Size(l))
      && (forall l, i | 0 <= l < WHEEL_NUM && 0 <= i < Size(l) ::
            wheels[l].slots[i].home == Model.Slot(l, i) && wheels[l].slots[i] in heads)
      && (forall l, k | 0 <= l < k < WHEEL_NUM :: wheels[l] != wheels[k])
      && (forall h | h in heads :: h.home != Model.Running)
      && readyNode.home == Model.Ready && readyNode in heads
    }

    ghost function Head(p: Place): (h: NodeLink)
      requires Shape() && Model.IsPlace(p) && (p.Slot? || p.Ready?)
      ensures h.home == p && h in heads
    {
      if p.Ready? then readyNode else wheels[p.level].slots[p.idx]
    }

    ghost function Objects(): set<NodeLink>
      reads this`m
    {
      heads + m.timers.Keys
    }

    ghost predicate RingOk(p: Place)
      requires Shape() && Model.IsPlace(p) && Model.Holds(m, p)
      reads this`m, this`firing, this`sweepEnd, Objects()
    {
      Member(p);
      match p
      case Slot(_, _) => Linked(Head(p), m.At(p))
      case Ready => if firing then Chained(m.At(p), readyNode) else Linked(readyNode, m.At(p))
      case Moving => Chained(m.At(p), sweepEnd)
      case Running => true
    }

    lemma Member(p: Place)
      requires Model.Holds(m, p)
      ensures forall n | n in m.At(p) :: n in m.timers && m.timers[n].place == p
    {
    }

    ghost predicate NodeOk(n: NodeLink)
      requires n in m.timers
      reads this`m, n
    {
      var t := m.timers[n];
      n.home == Model.Running && n.when == t.when && (n.funcIng <==> t.place == Model.Running)
    }

    /** The rings, nodes and slot positions are as m says. */
    ghost predicate HeapOk()
      reads this`m, this`firing, this`sweepEnd, this`timeElapse, wheels, Objects()
    {
      && Shape()
      && Model.Conserved(m)
      && Model.HasWheels(m.dial)
      && (forall l | 0 <= l < WHEEL_NUM :: wheels[l].slotIdx == m.dial.slotIdx[l] < Size(l))
      && timeElapse == m.dial.rem
      && (forall n {:trigger NodeOk(n)} | n in m.timers :: NodeOk(n))
      && (forall p {:trigger RingOk(p)} | Model.IsPlace(p) && Model.Holds(m, p) :: RingOk(p))
    }

    constructor (time: int)
      ensures Valid() && !firing && fresh(Objects()) && fresh(wheels)
      ensures m == NewWheel(time)
    {
      var ws, hs := MakeWheels();
      var ready := new NodeLink(0, Model.Ready);
      wheels, readyNode, timeElapse, handles, clock := ws, ready, 0, {}, time;
      m, firing, sweepEnd, heads := NewWheel(time), false, ready, hs + {ready};
      log := Log([NewWheel(time)], []);
      new;
      forall p | Model.IsPlace(p) && Model.Holds(m, p) ensures RingOk(p) {
        if p.Slot? {
          assert NewlyMade(wheels[p.level], p.level);
        }
      }
    }
  
    static method MakeWheels() returns (ws: seq<Wheel>, ghost hs: set<NodeLink>)
      ensures |ws| == WHEEL_NUM && forall l | 0 <= l < WHEEL_NUM ::
                fresh(ws[l]) && NewlyMade(ws[l], l) && forall i | 0 <= i < Size(l) :: ws[l].slots[i] in hs
      ensures forall h | h in hs :: fresh(h) && h.home.Slot?
      ensures forall j, k | 0 <= j < k < WHEEL_NUM :: ws[j] != ws[k]
    {
      ws, hs := [], {};
      for l := 0 to WHEEL_NUM
        invariant |ws| == l && forall j | 0 <= j < l :: fresh(ws[j]) && NewlyMade(ws[j], j)
        invariant forall j, i | 0 <= j < l && 0 <= i < Size(j) :: ws[j].slots[i] in hs
        invariant forall h | h in hs :: fresh(h) && h.home.Slot?
        invariant forall j, k | 0 <= j < k < l :: ws[j] != ws[k]
      {
        var w := new Wheel(l);
        ws := ws + [w];
        hs := hs + set i | 0 <= i < Size(l) :: w.slots[i];
      }
    }

    /** A ring none of whose nodes has been touched is still as it was. */
    twostate lemma UntouchedRing(q: Place)
      requires old(HeapOk()) && Model.IsPlace(q) && Model.Holds(old(m), q) && Model.Holds(m, q)
      requires m.At(q) == old(m.At(q)) && firing == old(firing) && sweepEnd == old(sweepEnd)
      requires forall k {:trigger m.At(q)[k]} | 0 <= k < |m.At(q)| :: unchanged(m.At(q)[k])
      requires q.Slot? || (q.Ready? && !firing) ==> unchanged(Head(q))
      ensures RingOk(q)
    {
      assert old(RingOk(q));
    }

    /** m with node n put last in the ring named by t, given that the ring has been relinked so. */
    twostate lemma Entered(new n: NodeLink, t: Timer)
      requires old(HeapOk()) && old(n !in m.timers)
      requires Model.IsPlace(t.place) && (t.place.Slot? || (t.place.Ready? && !firing))
      requires m == Model.Enter(old(m), n, t)
      requires timeElapse == old(timeElapse) && firing == old(firing) && sweepEnd == old(sweepEnd) && unchanged(wheels)
      requires n.home == Model.Running && n.when == t.when && !n.funcIng
      requires forall x {:trigger x in old(Objects())} | x in old(Objects()) && x != n ::
                 && x.when == old(x.when) && x.funcIng == old(x.funcIng)
                 && (x != Head(t.place) && x != old(Head(t.place).prev) ==> unchanged(x))
      requires Linked(Head(t.place), m.At(t.place))
      ensures HeapOk()
    {
      var p := t.place;
      var h := Head(p);
      Model.EnterConserves(old(m), n, t);
      assert old(RingOk(p)) && Model.Holds(old(m), p);
      assert old(h.prev) == h || old(NodeOk(h.prev));
      forall q | Model.IsPlace(q) && Model.Holds(m, q) ensures RingOk(q) {
        if q != p {
          assert Model.Holds(old(m), q) && m.At(q) == old(m).At(q);
          forall k | 0 <= k < |m.At(q)| ensures unchanged(m.At(q)[k]) {
            assert old(NodeOk(m.At(q)[k]));
            assert m.At(q)[k] in old(Objects());
          }
          if q.Slot? || q.Ready? {
            assert Head(q) in old(Objects());
          }
          UntouchedRing(q);
        }
      }
      forall x | x in m.timers ensures NodeOk(x) {
        if x != n {
          assert old(NodeOk(x)) && x in old(Objects());
        }
      }
    }

    method PutLast(slot: NodeLink, node: NodeLink, ghost t: Timer)
      requires HeapOk() && Model.IsPlace(t.place) && (t.place.Slot? || (t.place.Ready? && !firing))
      requires slot == Head(t.place)
      requires node !in m.timers && node.home == Model.Running && node.when == t.when && !node.funcIng
      modifies this`m, node`prev, node`next, Objects()`prev, Objects()`next
      ensures HeapOk() && m == Model.Enter(old(m), node, t)
    {
      assert Model.Holds(m, t.place) && RingOk(t.place) && forall x | x in m.At(t.place) :: NodeOk(x);
      LinkLast(slot, node, m.At(t.place));
      m := Model.Enter(m, node, t);
      Entered(node, t);
    }

    /** The slot for that many milliseconds from the wheel's position. */
    method FindSlot(milseconds: nat) returns (slot: NodeLink)
      requires HeapOk() && milseconds < UINT32
      ensures slot == Head(Model.SlotFor(m.dial, milseconds))
    {
      var tickCnt := TicksIn(milseconds);
      if tickCnt < Cap(0) {
        var index := (wheels[0].slotIdx + tickCnt) % Size(0);
        return wheels[0].slots[index];
      }
      var i := 1;
      while tickCnt >= Cap(i)
        invariant 1 <= i < WHEEL_NUM && Cap(i - 1) <= tickCnt
        decreases WHEEL_NUM - i
      {
        i := i + 1;
      }
      var preCap := Cap(i - 1);
      assert i == LevelOf(tickCnt) && preCap == SlotTicks(i) by {
        LayoutFromBits(i - 1);
      }
      var index := (wheels[i].slotIdx + tickCnt / preCap - 1) % Size(i);
      return wheels[i].slots[index];
    }

    /** node, in no ring, goes into the slot for that many milliseconds from the wheel's position. */
    method AddTimerNode(milseconds: nat, node: NodeLink, ghost t: Timer)
      requires HeapOk() && milseconds < UINT32
      requires node !in m.timers && node.home == Model.Running && node.when == t.when && !node.funcIng
      requires t.place == Model.SlotFor(m.dial, milseconds)
      modifies this`m, node`prev, node`next, Objects()`prev, Objects()`next
      ensures HeapOk() && m == Model.Enter(old(m), node, t)
    {
      var slot := FindSlot(milseconds);
      PutLast(slot, node, t);
    }

    /** node, in no ring, goes last on the ready list. */
    method AddToReadyNode(node: NodeLink, ghost t: Timer)
      requires HeapOk() && !firing
      requires node !in m.timers && node.home == Model.Running && node.when == t.when && !node.funcIng
      requires t.place == Model.Ready
      modifies this`m, node`prev, node`next, Objects()`prev, Objects()`next
      ensures HeapOk() && m == Model.Enter(old(m), node, t)
    {
      PutLast(readyNode, node, t);
    }

    /** The first node has been taken off the moving chain, off the ready chain while callbacks run, or from its own
        callback. */
    twostate predicate TakenOff(new n: NodeLink, new p: Place)
      reads this, wheels, Objects()
    {
      && old(HeapOk()) && old(m.At(p)) != [] && n == old(m.At(p))[0]
      && (p == Model.Moving || (p == Model.Ready && firing) || p == Model.Running)
      && n in old(m).timers && m == Model.Leave(old(m), n)
      && timeElapse == old(timeElapse) && firing == old(firing) && sweepEnd == old(sweepEnd) && unchanged(wheels)
      && (forall x {:trigger x in old(Objects())} | x in old(Objects()) && x != n :: unchanged(x))
    }

    twostate lemma Popped(new n: NodeLink, new p: Place)
      requires TakenOff(n, p)
      ensures HeapOk() && m.At(p) == old(m.At(p))[1..]
    {
      assert Model.Holds(old(m), p) && old(RingOk(p)) && old(NodeOk(n));
      Model.LeaveConserves(old(m), n);
      forall q | Model.IsPlace(q) && Model.Holds(m, q) ensures RingOk(q) {
        PoppedRing(n, p, q);
      }
      forall x | x in m.timers ensures NodeOk(x) {
        assert old(NodeOk(x)) && x in old(Objects());
      }
    }

    twostate lemma PoppedRing(new n: NodeLink, new p: Place, new q: Place)
      requires TakenOff(n, p) && Model.IsPlace(q) && Model.Holds(m, q) && Model.Holds(old(m), q)
      requires Model.Holds(old(m), p)
      ensures RingOk(q)
    {
      hide Model.Conserved;
      assert old(NodeOk(n)) && old(RingOk(p)) && old(RingOk(q));
      forall k | 0 <= k < |m.At(q)| ensures unchanged(m.At(q)[k]) {
        assert m.At(q)[k] in m.timers;
        assert m.At(q)[k] in old(Objects());
      }
      if q != p {
        if q.Slot? || q.Ready? {
          assert Head(q) in old(Objects());
        }
        hide Model.Leave, Model.Holds, NodeOk;
        UntouchedRing(q);
      } else if p != Model.Running {
        assert old(m.At(p))[1..] == m.At(p);
        hide Chained, Model.Holds, NodeOk, Model.Leave;
        ChainTail(old(m.At(p)), if p == Model.Moving then sweepEnd else readyNode);
      }
    }

    twostate lemma ChainTail(new ns: seq<NodeLink>, new end: NodeLink)
      requires old(allocated(ns)) && old(allocated(end)) && ns != [] && old(Chained(ns, end))
      requires forall k {:trigger ns[1..][k]} | 0 <= k < |ns[1..]| :: unchanged(ns[1..][k])
      ensures Chained(ns[1..], end)
    {
      forall k {:trigger ns[1..][k].next} | 0 <= k < |ns[1..]|
        ensures ns[1..][k].next == if k == |ns[1..]| - 1 then end else ns[1..][k + 1]
      {
        assert old(ns[k + 1].next) == if k + 1 == |ns| - 1 then end else ns[k + 2];
      }
      forall k {:trigger ns[1..][k].prev} | 0 < k < |ns[1..]| ensures ns[1..][k].prev == ns[1..][k - 1] {
        assert old(ns[k + 1].prev) == ns[k];
      }
    }

    // ----- sweeping -----

    /** The ring of slot p has been closed on its sentinel, its nodes left as a chain that ends there. */
    twostate predicate CutFrom(new p: Place, new d: Model.Dial)
      reads this, wheels, Objects()
    {
      && old(HeapOk()) && old(m.At(Model.Moving)) == [] && p.Slot? && Model.IsPlace(p)
      && Model.HasWheels(d) && d.rem == old(m.dial.rem)
      && m == Model.CutOff(old(m), p).(dial := d) && sweepEnd == Head(p)
      && timeElapse == old(timeElapse) && firing == old(firing)
      && (forall l | 0 <= l < WHEEL_NUM :: wheels[l].slotIdx == d.slotIdx[l] < Size(l))
      && (forall x {:trigger x in old(Objects())} | x in old(Objects()) && x != Head(p) :: unchanged(x))
      && Head(p).next == Head(p).prev == Head(p)
    }

    twostate lemma SlotCut(new p: Place, new d: Model.Dial)
      requires CutFrom(p, d)
      ensures HeapOk()
    {
      assert Model.Holds(old(m), p);
      Model.SameRings(Model.CutOff(old(m), p), m);
      forall q | Model.IsPlace(q) && Model.Holds(m, q) ensures RingOk(q) {
        CutRing(p, d, q);
      }
      forall x | x in m.timers ensures NodeOk(x) {
        assert old(NodeOk(x)) && x in old(Objects());
      }
    }

    twostate lemma CutRing(new p: Place, new d: Model.Dial, new q: Place)
      requires CutFrom(p, d) && Model.IsPlace(q) && Model.Holds(m, q) && Model.Holds(old(m), p)
      requires Model.Holds(old(m), q)
      ensures RingOk(q)
    {
      hide Model.Conserved;
      assert old(RingOk(p)) && old(RingOk(q));
      forall k | 0 <= k < |m.At(q)| ensures unchanged(m.At(q)[k]) {
        var x := m.At(q)[k];
        assert x in old(m.timers);
        assert old(NodeOk(x)) && x in old(Objects());
      }
      if q == Model.Moving {
        assert m.At(q) == old(m.At(p));
      } else if q != p {
        if q.Slot? || q.Ready? {
          assert Head(q) in old(Objects());
        }
        UntouchedElsewhere(q);
      }
    }

    /** UntouchedRing for rings that do not depend on sweepEnd. */
    twostate lemma UntouchedElsewhere(q: Place)
      requires old(HeapOk()) && Model.IsPlace(q) && Model.Holds(old(m), q) && Model.Holds(m, q) && q != Model.Moving
      requires m.At(q) == old(m.At(q)) && firing == old(firing)
      requires forall k {:trigger m.At(q)[k]} | 0 <= k < |m.At(q)| :: unchanged(m.At(q)[k])
      requires q.Slot? || (q.Ready? && !firing) ==> unchanged(Head(q))
      ensures RingOk(q)
    {
      assert old(RingOk(q));
    }

    /** The lines shared by Refresh and Cascade: advance wheel l, then cut the nodes of its old slot off. The dial of
        the model, history included, reads d after that. */
    method TakeSlot(l: nat, ghost d: Model.Dial) returns (slot: NodeLink, node: NodeLink, isCascade: bool)
      requires HeapOk() && l < WHEEL_NUM && m.At(Model.Moving) == []
      requires Model.HasWheels(d) && d.rem == m.dial.rem && d.slotIdx == Model.Advance(m.dial, l).slotIdx
      modifies this`m, this`sweepEnd, wheels`slotIdx, Objects()`prev, Objects()`next
      ensures HeapOk() && m == Model.CutOff(old(m), Model.Slot(l, old(m.dial.slotIdx[l]))).(dial := d)
      ensures slot == sweepEnd && slot.home.Slot?
      ensures node == (if m.At(Model.Moving) == [] then slot else m.At(Model.Moving)[0])
      ensures isCascade <==> d.slotIdx[l] == 0
    {
      ghost var p := Model.Slot(l, m.dial.slotIdx[l]);
      assert Model.Holds(m, p) && RingOk(p) && Model.CutOff(m, p).At(Model.Moving) == m.At(p);
      hide Model.CutOff, Model.Conserved, Chained;
      var wheel := wheels[l];
      slot := wheel.slots[wheel.slotIdx];
      isCascade := false;
      wheel.slotIdx := wheel.slotIdx + 1;
      if wheel.slotIdx >= wheel.size {
        wheel.slotIdx := 0;
        isCascade := true;
      }
      node := slot.next;
      slot.prev := slot;
      slot.next := slot;
      sweepEnd := slot;
      m := Model.CutOff(m, p).(dial := d);
      SlotCut(p, d);
    }
  
    ghost method Pop(n: NodeLink, p: Place)
      requires HeapOk() && m.At(p) != [] && n == m.At(p)[0] && (p == Model.Moving || (p == Model.Ready && firing))
      modifies this`m
      ensures n in old(m).timers && HeapOk() && m == Model.Leave(old(m), n) && m.At(p) == old(m.At(p))[1..]
    {
      assert Model.Holds(m, p);
      m := Model.Leave(m, n);
      Popped(n, p);
    }

    /** The first node of a chain, or where the chain ends. */
    ghost predicate AtChain(node: NodeLink, p: Place, end: NodeLink)
      reads this`m
    {
      node == if m.At(p) == [] then end else m.At(p)[0]
    }

    /** One step of the loop over a slot cut off by Refresh: node becomes ready; next is the node after it. */
    method ReadyHead(node: NodeLink, slot: NodeLink) returns (next: NodeLink)
      requires HeapOk() && !firing && m.At(Model.Moving) != [] && AtChain(node, Model.Moving, slot) && slot == sweepEnd
      modifies this`m, Objects()`prev, Objects()`next
      ensures HeapOk() && m.timers.Keys == old(m.timers.Keys) && AtChain(next, Model.Moving, slot)
      ensures m == Model.SettleHead(old(m), 0)
    {
      assert Model.Holds(m, Model.Moving) && RingOk(Model.Moving) && NodeOk(node);
      next := node.next;
      ghost var t := m.timers[node];
      Pop(node, Model.Moving);
      AddToReadyNode(node, t.(place := Model.Ready));
    }
  
    /** One step of the loop in Cascade: node becomes ready if it is due, and otherwise finds a new slot by the time it
        has left. */
    method CascadeHead(node: NodeLink, slot: NodeLink, wheelIdx: nat, timenow: int) returns (next: NodeLink)
      requires HeapOk() && !firing && m.At(Model.Moving) != [] && AtChain(node, Model.Moving, slot) && slot == sweepEnd
      requires wheelIdx > 0 && timenow == m.dial.now
      modifies this`m, Objects()`prev, Objects()`next
      ensures HeapOk() && m.timers.Keys == old(m.timers.Keys) && AtChain(next, Model.Moving, slot)
      ensures m == Model.SettleHead(old(m), wheelIdx)
    {
      assert Model.Holds(m, Model.Moving) && RingOk(Model.Moving) && NodeOk(node);
      next := node.next;
      ghost var t := m.timers[node];
      ghost var place := Model.SettlePlace(m.dial, wheelIdx, t);
      Pop(node, Model.Moving);
      if node.when <= timenow {
        AddToReadyNode(node, t.(place := place));
      } else {
        AddTimerNode(Uint32(node.when - timenow), node, t.(place := place));
      }
    }

    lemma ChainIsOver(node: NodeLink, slot: NodeLink)
      requires HeapOk() && AtChain(node, Model.Moving, slot) && node == slot && slot.home != Model.Running
      ensures m.At(Model.Moving) == []
    {
      assert Model.Holds(m, Model.Moving);
      assert m.At(Model.Moving) != [] ==> NodeOk(m.At(Model.Moving)[0]);
    }

    /** The loop in Cascade. */
    method CascadeChain(first: NodeLink, slot: NodeLink, wheelIdx: nat, timenow: int)
      requires HeapOk() && !firing && AtChain(first, Model.Moving, slot) && slot == sweepEnd && slot.home.Slot?
      requires wheelIdx > 0 && timenow == m.dial.now
      modifies this`m, Objects()`prev, Objects()`next
      ensures HeapOk() && m.timers.Keys == old(m.timers.Keys) && m == Model.SettleAll(old(m), wheelIdx)
    {
      hide Model.SettleHead;
      var node := first;
      ghost var all := Model.SettleAll(m, wheelIdx);
      while node != slot
        invariant HeapOk() && m.timers.Keys == old(m.timers.Keys) && AtChain(node, Model.Moving, slot)
        invariant m.dial == old(m.dial) && Model.SettleAll(m, wheelIdx) == all
        decreases |m.At(Model.Moving)|
      {
        node := CascadeHead(node, slot, wheelIdx, timenow);
      }
      ChainIsOver(node, slot);
    }

    /** The part of Cascade for its own wheel. */
    method CascadeSlot(wheelIdx: nat, timenow: int, ghost d: Model.Dial) returns (isCascade: bool)
      requires HeapOk() && !firing && 0 < wheelIdx < WHEEL_NUM && m.At(Model.Moving) == [] && timenow == m.dial.now
      requires d == Model.Advance(m.dial, wheelIdx)
      modifies this`m, this`sweepEnd, wheels`slotIdx, Objects()`prev, Objects()`next
      ensures HeapOk() && m.timers.Keys == old(m.timers.Keys) && m == Model.SweepSlot(old(m), wheelIdx, d)
      ensures isCascade <==> d.slotIdx[wheelIdx] == 0
    {
      var slot, node;
      slot, node, isCascade := TakeSlot(wheelIdx, d);
      CascadeChain(node, slot, wheelIdx, timenow);
    }

    method Cascade(wheelIdx: nat, timenow: int)
      requires HeapOk() && !firing && Model.CascadePoint(m, wheelIdx) && timenow == m.dial.now
      modifies this`m, this`sweepEnd, wheels`slotIdx, Objects()`prev, Objects()`next
      ensures HeapOk() && m.timers.Keys == old(m.timers.Keys) && m == Model.Cascade(old(m), wheelIdx)
      decreases WHEEL_NUM - wheelIdx
    {
      if wheelIdx < 1 || wheelIdx >= WHEEL_NUM { return; }
      ghost var d := Model.Advance(m.dial, wheelIdx);
      Model.CascadeReaches(m.dial, wheelIdx);
      Model.CascadeGoesOn(d, wheelIdx + 1);
      var isCascade := CascadeSlot(wheelIdx, timenow, d);
      if isCascade {
        Cascade(wheelIdx + 1, timenow);
      }
    }

    /** The loop over a slot in Refresh. */
    method ReadyChain(first: NodeLink, slot: NodeLink)
      requires HeapOk() && !firing && AtChain(first, Model.Moving, slot) && slot == sweepEnd && slot.home.Slot?
      modifies this`m, Objects()`prev, Objects()`next
      ensures HeapOk() && m.timers.Keys == old(m.timers.Keys) && m == Model.SettleAll(old(m), 0)
    {
      hide Model.SettleHead;
      var node := first;
      ghost var all := Model.SettleAll(m, 0);
      while node != slot
        invariant HeapOk() && m.timers.Keys == old(m.timers.Keys) && AtChain(node, Model.Moving, slot)
        invariant Model.SettleAll(m, 0) == all
        decreases |m.At(Model.Moving)|
      {
        node := ReadyHead(node, slot);
      }
      ChainIsOver(node, slot);
    }

    /** The part of a tick for the finest wheel. */
    method TickSlot(ghost d: Model.Dial) returns (isCascade: bool)
      requires HeapOk() && !firing && m.At(Model.Moving) == []
      requires d == Model.Advance(m.dial, 0).(ticks := m.dial.ticks + 1)
      modifies this`m, this`sweepEnd, wheels`slotIdx, Objects()`prev, Objects()`next
      ensures HeapOk() && m.timers.Keys == old(m.timers.Keys) && m == Model.SweepSlot(old(m), 0, d)
      ensures isCascade <==> d.slotIdx[0] == 0
    {
      var slot, node;
      slot, node, isCascade := TakeSlot(0, d);
      ReadyChain(node, slot);
    }

    /** The body of the loop in Refresh. */
    method Tick(timenow: int)
      requires HeapOk() && !firing && m.At(Model.Moving) == [] && Model.Exact(m.dial) && timenow == m.dial.now
      modifies this`m, this`sweepEnd, wheels`slotIdx, Objects()`prev, Objects()`next
      ensures HeapOk() && m.timers.Keys == old(m.timers.Keys) && m == Model.Tick(old(m))
    {
      ghost var d := Model.Advance(m.dial, 0).(ticks := m.dial.ticks + 1);
      Model.TickStarts(m.dial);
      Model.CascadeGoesOn(d, 1);
      var isCascade := TickSlot(d);
      if isCascade {
        Cascade(1, timenow);
      }
    }

    // ----- what callers and callbacks may do -----

    /** At a tick boundary, between calls. */
    ghost predicate Valid()
      reads this, wheels, Objects()
    {
      && HeapOk() && Model.Boundary(m) && (!firing ==> m.Idle())
      && handles == m.timers.Keys && clock == m.dial.clock && LeadsTo(log, m)
    }

    /** delay is in milliseconds, timeMS is the reading of the clock. */
    method AddTimer(delay: nat, timeMS: int) returns (node: NodeLink)
      requires Valid() && delay < UINT32 && clock <= timeMS
      modifies this`m, this`log, this`handles, this`clock, Objects()`prev, Objects()`next
      ensures Valid() && fresh(node) && Objects() == old(Objects()) + {node}
      ensures node.when == timeMS + delay && handles == old(handles) + {node}
      ensures Calls(old(log), log)
      ensures Model.Legal(old(m), Model.Add(node, delay, timeMS)) && m == Model.AddTimer(old(m), node, delay, timeMS)
    {
      hide LeadsTo, Calls, Continues, Model.Boundary, Model.AddTimer;
      node := new NodeLink(timeMS + delay, Model.Running);
      PlaceNew(node, delay, timeMS);
      Record(handles + {node}, timeMS, old(m), Model.Add(node, delay, timeMS));
    }

    method PlaceNew(node: NodeLink, delay: nat, timeMS: int)
      requires HeapOk() && Model.Boundary(m) && delay < UINT32 && m.dial.clock <= timeMS
      requires node !in m.timers && node.home == Model.Running && node.when == timeMS + delay && !node.funcIng
      modifies this`m, node`prev, node`next, Objects()`prev, Objects()`next
      ensures HeapOk() && m == Model.AddTimer(old(m), node, delay, timeMS)
      ensures m.timers.Keys == old(m.timers.Keys) + {node} && m.dial.clock == timeMS && (old(m.Idle()) ==> m.Idle())
    {
      ghost var t := Model.Timer(timeMS + delay, m.dial.now, delay, timeMS, m.dial.lost, Model.SlotFor(m.dial, delay));
      SetDial(Model.Read(m.dial, timeMS, delay));
      AddTimerNode(delay, node, t);
    }

    /** The event e has led from s to m. What callers see changes no ring. */
    method Record(handles: set<NodeLink>, clock: int, ghost s: State, ghost e: Event)
      requires HeapOk() && LeadsTo(log, s) && Model.Boundary(s) && Model.Legal(s, e) && m == Model.Apply(s, e)
      requires handles == m.timers.Keys && clock == m.dial.clock
      modifies this`handles, this`clock, this`log
      ensures HeapOk() && Model.Boundary(m) && this.handles == handles && this.clock == clock && LeadsTo(log, m)
      ensures Continues(old(log), log) && log.es == old(log.es) + [e] && (!e.Refresh? ==> Calls(old(log), log))
    {
      hide LeadsTo, Model.Apply, Model.Legal, Model.Boundary;
      log := Extend(log, s, e);
      this.handles, this.clock := handles, clock;
      forall p | Model.IsPlace(p) && Model.Holds(m, p) ensures RingOk(p) {
        assert old(RingOk(p));
      }
      forall n | n in m.timers ensures NodeOk(n) {
        assert old(NodeOk(n));
      }
    }

    /** The times of the dial are history: changing them changes no ring. */
    ghost method SetDial(d: Model.Dial)
      requires HeapOk()
      requires d == m.dial.(now := d.now, clock := d.clock, maxElapse := d.maxElapse, maxDelay := d.maxDelay)
      modifies this`m
      ensures HeapOk() && m == old(m).(dial := d)
    {
      Model.SameRings(m, m.(dial := d));
      forall p | Model.IsPlace(p) && Model.Holds(m.(dial := d), p) ensures RingOk(p) {
        assert Model.Holds(m, p);
      }
      forall n | n in m.timers ensures NodeOk(n) {}
      m := m.(dial := d);
    }
  
    /** m without node n, given that its ring or chain has been relinked so. */
    twostate lemma Left(new n: NodeLink)
      requires old(HeapOk()) && n in old(m).timers && old(m.At(Model.Moving)) == []
      requires m == Model.Leave(old(m), n)
      requires timeElapse == old(timeElapse) && firing == old(firing) && sweepEnd == old(sweepEnd) && unchanged(wheels)
      requires var p := old(m).timers[n].place;
               && (p.Slot? || p.Ready?) && Model.IsPlace(p)
               && (forall x {:trigger x in old(Objects())} | x in old(Objects()) && x != n ::
                     && x.when == old(x.when) && x.funcIng == old(x.funcIng)
                     && (x != Head(p) && x !in old(m).At(p) ==> unchanged(x)))
               && if p == Model.Ready && firing then Chained(m.At(p), readyNode) else Linked(Head(p), m.At(p))
      ensures HeapOk()
    {
      var p := old(m).timers[n].place;
      Model.LeaveConserves(old(m), n);
      forall q | Model.IsPlace(q) && Model.Holds(m, q) ensures RingOk(q) {
        assert Model.Holds(old(m), q) && Model.Holds(old(m), p);
        if q != p {
          forall k | 0 <= k < |m.At(q)| ensures unchanged(m.At(q)[k]) {
            var x := m.At(q)[k];
            assert x in old(m.timers) && old(NodeOk(x)) && x in old(Objects());
          }
          if q.Slot? || q.Ready? {
            var h := Head(q);
            assert h in old(Objects());
            assert h != n && h !in old(m).At(p) by {
              assert old(NodeOk(n)) && forall x | x in old(m.At(p)) :: old(NodeOk(x));
            }
          }
          UntouchedRing(q);
        }
      }
      forall x | x in m.timers ensures NodeOk(x) {
        assert old(NodeOk(x)) && x in old(Objects());
      }
    }

    /** A node in a ring, or behind the first of the ready chain, has its neighbours in the same ring. */
    lemma Neighbours(node: NodeLink, p: Place, h: NodeLink)
      requires HeapOk() && node in m.timers && p == m.timers[node].place && CanTakeOut(node)
      requires Model.IsPlace(p) && h == Head(p)
      ensures Distinct(m.At(p)) && Chained(m.At(p), h)
      ensures p.Slot? || !firing ==> Linked(h, m.At(p))
      ensures node in m.At(p) && (node == m.At(p)[0] ==> p.Slot? || !firing)
      ensures h !in m.At(p)
      ensures node.prev == h || node.prev in m.At(p)
      ensures node.next == h || node.next in m.At(p)
    {
      assert Model.Listed(m, node) && Model.Holds(m, p) && RingOk(p);
      forall x | x in m.At(p) ensures x != h {
        assert NodeOk(x);
      }
      var k := Model.IndexOf(m.At(p), node);
      assert m.At(p)[k].next == if k == |m.At(p)| - 1 then h else m.At(p)[k + 1];
      assert k > 0 ==> m.At(p)[k].prev == m.At(p)[k - 1];
    }

    ghost predicate CanTakeOut(node: NodeLink)
      requires Shape() && Model.Conserved(m) && node in m.timers
      reads this`m, this`firing
    {
      assert Model.Listed(m, node);
      var p := m.timers[node].place;
      p.Slot? || (p.Ready? && (firing ==> node != m.At(p)[0]))
    }

    method Unwire(node: NodeLink, ghost p: Place, ghost h: NodeLink)
      requires HeapOk() && node in m.timers && p == m.timers[node].place && CanTakeOut(node)
      requires Model.IsPlace(p) && h == Head(p)
      modifies Objects()`prev, Objects()`next
      ensures node in m.At(p) && Chained(Model.Without(m.At(p), node), h)
      ensures p.Slot? || !firing ==> Linked(h, Model.Without(m.At(p), node))
      ensures forall x {:trigger x in old(Objects())} | x in old(Objects()) && x != node && x != h && x !in m.At(p) ::
                unchanged(x)
    {
      Neighbours(node, p, h);
      assert forall x | x in m.At(p) :: x in m.timers by {
        assert Model.Holds(m, p);
      }
      Unlink(h, node, m.At(p));
    }

    method TakeOut(node: NodeLink)
      requires HeapOk() && node in m.timers && m.At(Model.Moving) == [] && CanTakeOut(node)
      modifies this`m, Objects()`prev, Objects()`next
      ensures HeapOk() && m == Model.Leave(old(m), node)
    {
      ghost var p := m.timers[node].place;
      assert Model.Listed(m, node);
      Unwire(node, p, Head(p));
      m := Model.Leave(m, node);
      Left(node);
    }

    method DelTimer(node: NodeLink)
      requires Valid() && Model.Legal(m, Model.Del(node))
      modifies this`m, this`log, this`handles, this`clock, Objects()`prev, Objects()`next
      ensures Valid() && m == Model.DelTimer(old(m), node) && Calls(old(log), log)
      ensures handles == if old(node.funcIng) then old(handles) else old(handles) - {node}
      ensures Objects() <= old(Objects())
    {
      assert NodeOk(node) && Model.Listed(m, node);
      if node.funcIng { return; }
      ghost var after := Model.DelTimer(m, node);
      TakeOut(node);
      assert m == after;
      Record(handles - {node}, clock, old(m), Model.Del(node));
    }
  
    // ----- callbacks -----

    /** node is marked as running, in no ring. */
    method StartFunc(node: NodeLink, ghost t: Timer)
      requires HeapOk() && node !in m.timers && node !in heads && t.place == Model.Running
      requires node.home == Model.Running && node.when == t.when
      modifies this`m, node`funcIng
      ensures HeapOk() && m == Model.Enter(old(m), node, t)
    {
      Model.EnterConserves(m, node, t);
      node.funcIng := true;
      m := Model.Enter(m, node, t);
      forall q | Model.IsPlace(q) && Model.Holds(m, q) ensures RingOk(q) {
        assert Model.Holds(old(m), q) && old(RingOk(q));
        if q != Model.Running {
          assert m.At(q) == old(m.At(q));
          forall k | 0 <= k < |m.At(q)| ensures unchanged(m.At(q)[k]) {
            assert m.At(q)[k] in old(m).timers;
          }
          UntouchedRing(q);
        }
      }
      forall x | x in m.timers ensures NodeOk(x) {
        assert x != node ==> old(NodeOk(x));
      }
    }
  
    /** Inside DoTimeOutCallBack, whose loop goes on at next. */
    ghost predicate Firing(next: NodeLink)
      reads this, wheels, Objects()
    {
      Valid() && firing && AtChain(next, Model.Ready, readyNode)
    }

    /** The user's function: any number of AddTimer and DelTimer calls, in any order, and any int result. It does not
        delete the node that the loop has already picked as next. */
    method Func(next: NodeLink) returns (again: int)
      requires Firing(next)
      modifies this`m, this`log, this`handles, this`clock, this`results, Objects()`prev, Objects()`next
      ensures results == old(results) + [again]
      ensures Firing(next) && fresh(Objects() - old(Objects())) && Calls(old(log), log) && again < UINT32 / 2
      ensures m.At(Model.Running) == old(m.At(Model.Running)) && |m.At(Model.Ready)| <= old(|m.At(Model.Ready)|)
    {
      AnyCalls(next);
      again := *;
      if again >= UINT32 / 2 { again := 0; }
      Answer(again);
    }

    method AnyCalls(next: NodeLink)
      requires Firing(next)
      modifies this`m, this`log, this`handles, this`clock, Objects()`prev, Objects()`next
      ensures Firing(next) && fresh(Objects() - old(Objects())) && Calls(old(log), log)
      ensures m.At(Model.Running) == old(m.At(Model.Running)) && |m.At(Model.Ready)| <= old(|m.At(Model.Ready)|)
    {
      var calls: int := *;
      for i := 0 to if calls > 0 then calls else 0
        invariant Firing(next) && fresh(Objects() - old(Objects())) && Calls(old(log), log)
        invariant m.At(Model.Running) == old(m.At(Model.Running)) && |m.At(Model.Ready)| <= old(|m.At(Model.Ready)|)
      {
        AnyCall(next);
      }
    }

    /** What a callback has returned is noted: this changes no ring. */
    ghost method Answer(again: int)
      requires Valid()
      modifies this`results
      ensures Valid() && results == old(results) + [again]
    {
      results := results + [again];
      forall p | Model.IsPlace(p) && Model.Holds(m, p) ensures RingOk(p) {
        assert old(RingOk(p));
      }
      forall n | n in m.timers ensures NodeOk(n) {
        assert old(NodeOk(n));
      }
    }

    method AnyCall(next: NodeLink)
      requires Firing(next)
      modifies this`m, this`log, this`handles, this`clock, Objects()`prev, Objects()`next
      ensures Firing(next) && fresh(Objects() - old(Objects())) && Calls(old(log), log)
      ensures m.At(Model.Running) == old(m.At(Model.Running)) && |m.At(Model.Ready)| <= old(|m.At(Model.Ready)|)
    {
      var others := handles - {next};
      var delay: int := *;
      var lag: int := *;
      if 0 <= delay < UINT32 && 0 <= lag {
        var node := AddTimer(delay, clock + lag);
      } else if others != {} {
        var node :| node in others;
        DelKeepsHead(node, next);
        DelTimer(node);
      }
    }

    lemma DelKeepsHead(node: NodeLink, next: NodeLink)
      requires Valid() && firing && AtChain(next, Model.Ready, readyNode) && node in m.timers && node != next
      ensures Model.Legal(m, Model.Del(node))
      ensures var r := Model.DelTimer(m, node);
              && r.At(Model.Running) == m.At(Model.Running) && |r.At(Model.Ready)| <= |m.At(Model.Ready)|
              && next == (if r.At(Model.Ready) == [] then readyNode else r.At(Model.Ready)[0])
    {
    }

    /** The first half of _Callback: node, first of the ready chain, is about to be called; next is the node after
        it. */
    method StartCallback(node: NodeLink) returns (next: NodeLink)
      requires Firing(node) && m.At(Model.Running) == [] && node != readyNode
      modifies this`m, this`log, this`handles, this`clock, node`funcIng
      ensures Firing(next) && Objects() == old(Objects()) && Calls(old(log), log)
      ensures m.At(Model.Running) == [node] && |m.At(Model.Ready)| < old(|m.At(Model.Ready)|)
      ensures Model.Legal(old(m), Model.Fire) && m == Model.FireNext(old(m)) && log.es == old(log.es) + [Model.Fire]
    {
      assert Model.Holds(m, Model.Ready) && RingOk(Model.Ready) && NodeOk(node);
      assert m.At(Model.Ready)[0].next == if |m.At(Model.Ready)| == 1 then readyNode else m.At(Model.Ready)[1];
      next := node.next;
      hide LeadsTo, Calls, Continues, Model.FireNext;
      TakeReady(node);
      Record(handles, clock, old(m), Model.Fire);
    }

    method TakeReady(node: NodeLink)
      requires HeapOk() && firing && Model.Boundary(m) && Model.Legal(m, Model.Fire) && node == m.At(Model.Ready)[0]
      modifies this`m, node`funcIng
      ensures HeapOk() && m == Model.FireNext(old(m)) && m.timers.Keys == old(m.timers.Keys)
      ensures m.At(Model.Running) == [node] && m.At(Model.Ready) == old(m.At(Model.Ready))[1..]
    {
      assert Model.Holds(m, Model.Ready) && NodeOk(node);
      hide Model.Conserved, Model.Exact;
      ghost var t, after := m.timers[node], Model.FireNext(m);
      Pop(node, Model.Ready);
      StartFunc(node, t.(place := Model.Running));
      assert m == after;
    }

    /** node's function has returned: it is in no ring. */
    method StopFunc(node: NodeLink)
      requires HeapOk() && m.At(Model.Running) == [node]
      modifies this`m, node`funcIng
      ensures node in old(m).timers && HeapOk() && m == Model.Leave(old(m), node)
      ensures !node.funcIng && node.home == Model.Running && node.when == old(m).timers[node].when
    {
      assert Model.Holds(m, Model.Running) && m.At(Model.Running)[0] == node;
      assert NodeOk(node);
      node.funcIng := false;
      m := Model.Leave(m, node);
      Popped(node, Model.Running);
    }

    /** The second half of _Callback: re-arm or delete. */
    method EndCallback(node: NodeLink, again: int, next: NodeLink)
      requires Firing(next) && m.At(Model.Running) == [node] && again < UINT32 / 2
      modifies this`m, this`log, this`handles, this`clock, Objects()`prev, Objects()`next, node`funcIng, node`when
      ensures Firing(next) && Objects() <= old(Objects()) && Calls(old(log), log)
      ensures m.At(Model.Running) == [] && m.At(Model.Ready) == old(m.At(Model.Ready))
      ensures m == Model.Returned(old(m), again) && log.es == old(log.es) + [Model.Return(again)]
      ensures again > 0 ==> node in handles && node.when == old(node.when) + again
      ensures again <= 0 ==> node !in handles
    {
      hide LeadsTo, Calls, Continues, Model.Returned;
      RearmOrDelete(node, again);
      Record(if again > 0 then handles else handles - {node}, clock, old(m), Model.Return(again));
    }

    method RearmOrDelete(node: NodeLink, again: int)
      requires HeapOk() && Model.Boundary(m) && m.At(Model.Running) == [node] && again < UINT32 / 2
      modifies this`m, Objects()`prev, Objects()`next, node`funcIng, node`when
      ensures HeapOk() && m == Model.Returned(old(m), again) && m.dial == old(m.dial)
      ensures node in old(m).timers && m.timers.Keys == old(m).timers.Keys - (if again > 0 then {} else {node})
      ensures again > 0 ==> node.when == old(node.when) + again
      ensures m.At(Model.Running) == [] && m.At(Model.Ready) == old(m.At(Model.Ready))
    {
      ghost var after := Model.Returned(m, again);
      assert Model.Holds(m, Model.Running) && m.At(Model.Running)[0] == node;
      StopFunc(node);
      if again > 0 {
        Rearm(node, again, after.timers[node]);
      }
      assert m == after;
    }

    method Rearm(node: NodeLink, again: nat, ghost t: Timer)
      requires HeapOk() && again < UINT32 && node !in m.timers && node.home == Model.Running && !node.funcIng
      requires t.when == node.when + again && t.place == Model.SlotFor(m.dial, again)
      modifies this`m, Objects()`prev, Objects()`next, node`prev, node`next, node`when
      ensures HeapOk() && m == Model.Enter(old(m), node, t) && node.when == old(node.when) + again
    {
      node.when := node.when + again;
      forall p | Model.IsPlace(p) && Model.Holds(m, p) ensures RingOk(p) {
        assert old(RingOk(p));
      }
      forall n | n in m.timers ensures NodeOk(n) {
        assert old(NodeOk(n));
      }
      AddTimerNode(again, node, t);
    }
  
    method DoTimeOutCallBack()
      requires HeapOk() && !firing && Model.Boundary(m) && m.At(Model.Running) == []
      requires handles == m.timers.Keys && clock == m.dial.clock && LeadsTo(log, m)
      modifies this`m, this`log, this`handles, this`clock, this`results, this`firing, Objects()
      ensures Valid() && !firing && fresh(Objects() - old(Objects())) && Calls(old(log), log)
      ensures EachDeparted(log, |old(log.es)|, old(m.At(Model.Ready)))
    {
      assert Model.Holds(m, Model.Ready) && RingOk(Model.Ready);
      var node := readyNode.next;
      OpenReady();
      while node != readyNode
        invariant Firing(node) && m.At(Model.Running) == []
        invariant fresh(Objects() - old(Objects())) && Calls(old(log), log)
        decreases |m.At(Model.Ready)|
      {
        node := Callback(node);
      }
      ReadyIsOver(node);
      AllDeparted(old(log), log, old(m), m);
      CloseReady();
    }

    method Callback(node: NodeLink) returns (next: NodeLink)
      requires Firing(node) && m.At(Model.Running) == [] && node != readyNode
      modifies this`m, this`log, this`handles, this`clock, this`results, Objects()
      ensures Firing(next) && m.At(Model.Running) == []
      ensures fresh(Objects() - old(Objects())) && Calls(old(log), log)
      ensures |m.At(Model.Ready)| < old(|m.At(Model.Ready)|)
      ensures |results| == |old(results)| + 1 && log.es != [] && Last(log.es) == Model.Return(Last(results))
    {
      assert Model.Holds(m, Model.Ready) && node in m.timers;
      next := StartCallback(node);
      CallFunc(node, next);
    }

    method CallFunc(node: NodeLink, next: NodeLink)
      requires Firing(next) && m.At(Model.Running) == [node]
      modifies this`m, this`log, this`handles, this`clock, this`results, Objects()
      ensures Firing(next) && m.At(Model.Running) == [] && |m.At(Model.Ready)| <= old(|m.At(Model.Ready)|)
      ensures fresh(Objects() - old(Objects())) && Calls(old(log), log)
      ensures |results| == |old(results)| + 1 && log.es != [] && Last(log.es) == Model.Return(Last(results))
    {
      assert Model.Holds(m, Model.Running) && m.At(Model.Running)[0] == node && node in m.timers;
      var again := Func(next);
      assert Model.Holds(m, Model.Running) && m.At(Model.Running)[0] == node && node in m.timers;
      EndCallback(node, again, next);
    }

    lemma ReadyIsOver(node: NodeLink)
      requires HeapOk() && AtChain(node, Model.Ready, readyNode) && node == readyNode
      ensures m.At(Model.Ready) == []
    {
      assert Model.Holds(m, Model.Ready);
      assert m.At(Model.Ready) != [] ==> NodeOk(m.At(Model.Ready)[0]);
    }

    /** While callbacks run, the ready list is only read forwards: its sentinel's links are stale. */
    ghost method OpenReady()
      requires HeapOk() && !firing
      modifies this`firing
      ensures HeapOk() && firing
    {
      firing := true;
      forall p | Model.IsPlace(p) && Model.Holds(m, p) ensures RingOk(p) {
        assert old(RingOk(p));
      }
      forall n | n in m.timers ensures NodeOk(n) {
        assert old(NodeOk(n));
      }
    }

    method CloseReady()
      requires HeapOk() && firing && m.At(Model.Ready) == []
      modifies this`firing, readyNode`prev, readyNode`next
      ensures HeapOk() && !firing
    {
      readyNode.prev := readyNode;
      readyNode.next := readyNode;
      firing := false;
      forall p | Model.IsPlace(p) && Model.Holds(m, p) ensures RingOk(p) {
        assert old(RingOk(p));
        assert forall k | 0 <= k < |m.At(p)| :: old(NodeOk(m.At(p)[k]));
        if p.Slot? {
          assert Head(p) != readyNode;
        }
      }
      forall n | n in m.timers ensures NodeOk(n) {
        assert old(NodeOk(n));
      }
    }

    /** elapse is the time since the last Refresh, and timenow the time now. */
    method Refresh(elapse: nat, timenow: int)
      requires Valid() && !firing && Model.Legal(m, Model.Refresh(elapse)) && timenow == m.dial.now + elapse
      modifies this, wheels`slotIdx, Objects()
      ensures Valid() && !firing && fresh(Objects() - old(Objects()))
      ensures Continues(old(log), log) && old(log.es) + [Model.Refresh(elapse)] <= log.es
      ensures EachDeparted(log, |old(log.es)| + 1, Model.SweepTicks(old(m), elapse).At(Model.Ready))
    {
      hide LeadsTo, EachDeparted, Model.SweepTicks, Model.Conserved, Model.Exact, Model.Boundary;
      SweepElapsed(elapse, timenow);
      Record(handles, if timenow > clock then timenow else clock, old(m), Model.Refresh(elapse));
      DoTimeOutCallBack();
    }

    /** Between refreshes no live timer is late. */
    lemma NoneLate(n: NodeLink)
      requires Valid() && !firing && n in m.timers
      ensures m.timers[n].place.Slot? && m.dial.now < m.timers[n].Latest() + TICK_LEN + (m.dial.lost - m.timers[n].lost)
      ensures (forall i {:trigger log.es[i]} | 0 <= i < |log.es| :: FitsCounter(log.ss[i], log.es[i])) ==>
                m.dial.now < m.timers[n].Latest() + TICK_LEN
    {
      NeverLate(log.ss, log.es, n);
      if forall i {:trigger log.es[i]} | 0 <= i < |log.es| :: FitsCounter(log.ss[i], log.es[i]) {
        NeverLateWhenFitting(log.ss, log.es, n);
      }
    }

    /** The first part of Refresh: every tick that has elapsed. */
    method SweepElapsed(elapse: nat, timenow: int)
      requires Valid() && !firing && Model.Legal(m, Model.Refresh(elapse)) && timenow == m.dial.now + elapse
      modifies this`m, this`timeElapse, this`sweepEnd, wheels`slotIdx, Objects()`prev, Objects()`next
      ensures HeapOk() && m == Model.SweepTicks(old(m), elapse) && m.timers.Keys == old(m.timers.Keys)
      ensures m.At(Model.Running) == [] && m.dial.clock == Model.Max(old(m.dial.clock), timenow)
    {
      hide Model.Tick, Model.Exact;
      ghost var s, start := m, m.(dial := Model.Started(m.dial, elapse));
      Model.SameRings(s, start);
      Model.SameCount(s.dial, start.dial);
      var tickCnt := CountElapse(elapse);
      SweepTicks(tickCnt, timenow, start);
      assert Model.SweepTicks(s, elapse) == Model.Ticks(start, tickCnt);
    }

    /** The loop in Refresh. */
    method SweepTicks(tickCnt: nat, timenow: int, ghost start: State)
      requires HeapOk() && !firing && m == start && m.At(Model.Moving) == [] && Model.Exact(m.dial)
      requires timenow == m.dial.now
      modifies this`m, this`sweepEnd, wheels`slotIdx, Objects()`prev, Objects()`next
      ensures HeapOk() && m.timers.Keys == start.timers.Keys && m == Model.Ticks(start, tickCnt)
    {
      hide Model.Tick;
      for i := 0 to tickCnt
        invariant HeapOk() && m.timers.Keys == start.timers.Keys && m == Model.Ticks(start, i)
      {
        NextTick(i, timenow, start);
      }
    }

    method NextTick(ghost i: nat, timenow: int, ghost start: State)
      requires Model.Conserved(start) && start.At(Model.Moving) == [] && Model.Exact(start.dial)
      requires HeapOk() && !firing && m == Model.Ticks(start, i) && timenow == start.dial.now
      modifies this`m, this`sweepEnd, wheels`slotIdx, Objects()`prev, Objects()`next
      ensures HeapOk() && m.timers.Keys == old(m.timers.Keys) && m == Model.Ticks(start, i + 1)
    {
      Tick(timenow);
    }

    /** The first three lines of Refresh. */
    method CountElapse(elapse: nat) returns (tickCnt: nat)
      requires HeapOk() && elapse < UINT32
      modifies this`m, this`timeElapse
      ensures HeapOk() && m == old(m).(dial := Model.Started(old(m.dial), elapse))
      ensures tickCnt == TicksIn(Model.Counter(old(m.dial), elapse))
    {
      timeElapse := Uint32(timeElapse + elapse);
      tickCnt := TicksIn(timeElapse);
      timeElapse := PartTick(timeElapse);
      m := m.(dial := Model.Started(m.dial, elapse));
      Model.SameRings(old(m), m);
      forall p | Model.IsPlace(p) && Model.Holds(m, p) ensures RingOk(p) {
        assert Model.Holds(old(m), p) && old(RingOk(p));
      }
      forall n | n in m.timers ensures NodeOk(n) {
        assert old(NodeOk(n));
      }
    }
  }

  ghost predicate NewlyMade(w: Wheel, l: nat)
    requires l < WHEEL_NUM
    reads w, w.slots
  {
    && w.slotIdx == 0 && w.size == |w.slots| == Size(l)
    && forall i | 0 <= i < w.size ::
         var h := w.slots[i];
         h.home == Model.Slot(l, i) && h.prev == h && h.next == h
  }
}
