/** CPoolIndex and the handles Pool_Index_UniqueID32 and Pool_Index_UniqueID64 put on its objects: a handle joins the
    object's place in the pool and the low digits of the number of its creation. */
module PoolIndex {
  import opened Common
  import opened Division

  const VOID_POOL_ID: int := -1

  /** limit is 2^16 or 2^32: how many places, and how many creations, a handle can tell apart. */
  function Handle(serial: nat, index: nat, limit: nat): nat
    requires limit > 0
  {
    serial % limit * limit + index
  }

  /** Two creations have the same handle just when they took the same place, a multiple of limit creations apart. */
  lemma SameHandle(s: nat, i: nat, t: nat, j: nat, limit: nat)
    requires i < limit && j < limit
    ensures Handle(s, i, limit) == Handle(t, j, limit) <==> i == j && s % limit == t % limit
    ensures Handle(s, i, limit) % limit == i
  {
    DivModUnique(Handle(s, i, limit), limit, s % limit, i);
    DivModUnique(Handle(t, j, limit), limit, t % limit, j);
  }

  /** What a place holds; serial says which creation took it last. */
  datatype Content = Content(index: int, uniqueId: nat, serial: nat)

  /** Every place is in use and knows its object, or is free and queued once. */
  ghost predicate Parted(queue: seq<nat>, view: seq<Content>) {
    && Distinct(queue)
    && (forall i | i in queue :: i < |view|)
    && (forall i {:trigger view[i]} | 0 <= i < |view| :: view[i].index == if i in queue then VOID_POOL_ID else i)
  }

  /** An object in use has the handle of the creation it is, and no later creation took its place; made says of every
      creation what place it took. */
  ghost predicate Stamped(view: seq<Content>, made: seq<nat>, limit: nat) {
    && 0 < |view| <= limit
    && (forall n {:trigger made[n]} | 0 <= n < |made| :: made[n] < |view|)
    && (forall i {:trigger view[i]} | 0 <= i < |view| && view[i].index != VOID_POOL_ID ::
          && 0 < view[i].serial <= |made| && made[view[i].serial - 1] == i
          && view[i].uniqueId == Handle(view[i].serial, i, limit))
  }

  ghost predicate Good(queue: seq<nat>, view: seq<Content>, made: seq<nat>, limit: nat) {
    Parted(queue, view) && Stamped(view, made, limit)
  }

  /** Creation n, counted from 0, is still there. */
  ghost predicate Alive(view: seq<Content>, made: seq<nat>, n: int) {
    0 <= n < |made| && made[n] < |view| && view[made[n]].index != VOID_POOL_ID && view[made[n]].serial == n + 1
  }

  ghost function Created(view: seq<Content>, made: seq<nat>, limit: nat, id: nat): seq<Content>
    requires id < |view| && limit > 0
  {
    view[id := Content(id, Handle(|made| + 1, id, limit), |made| + 1)]
  }

  lemma NewIsGood(queue: seq<nat>, view: seq<Content>, limit: nat)
    requires |queue| == |view| && 0 < |view| <= limit
    requires forall i | 0 <= i < |view| :: queue[i] == i && view[i].index == VOID_POOL_ID
    ensures Good(queue, view, [], limit)
  {
  }

  lemma CreatingKeeps(queue: seq<nat>, view: seq<Content>, made: seq<nat>, limit: nat)
    requires Good(queue, view, made, limit) && queue != []
    ensures queue[0] < |view| && view[queue[0]].index == VOID_POOL_ID
    ensures Good(queue[1..], Created(view, made, limit, queue[0]), made + [queue[0]], limit)
  {
    CreatingParts(queue, view, made, limit);
    hide Parted, Handle;
    assert Stamped(Created(view, made, limit, queue[0]), made + [queue[0]], limit);
  }

  lemma CreatingParts(queue: seq<nat>, view: seq<Content>, made: seq<nat>, limit: nat)
    requires Parted(queue, view) && queue != [] && limit > 0
    ensures queue[0] < |view| && view[queue[0]].index == VOID_POOL_ID
    ensures Parted(queue[1..], Created(view, made, limit, queue[0]))
  {
    assert queue[0] in queue;
    forall i ensures i in queue <==> i == queue[0] || i in queue[1..] {
      assert queue == [queue[0]] + queue[1..];
    }
    assert queue[0] !in queue[1..];
  }

  lemma CreatingKeepsOthers(queue: seq<nat>, view: seq<Content>, made: seq<nat>, limit: nat)
    requires Good(queue, view, made, limit) && queue != []
    ensures queue[0] < |view|
    ensures var id := queue[0]; var v, m := Created(view, made, limit, id), made + [id];
            && Alive(v, m, |made|)
            && (forall n {:trigger Alive(v, m, n)} | 0 <= n < |made| :: Alive(v, m, n) <==> Alive(view, made, n))
  {
    assert queue[0] in queue;
  }

  lemma DeletingKeeps(queue: seq<nat>, view: seq<Content>, made: seq<nat>, limit: nat, i: nat)
    requires Good(queue, view, made, limit) && i < |view| && view[i].index != VOID_POOL_ID
    ensures view[i].index == i
    ensures var v := view[i := view[i].(index := VOID_POOL_ID)];
            && Good(queue + [i], v, made, limit)
            && (forall n {:trigger Alive(v, made, n)} | 0 <= n < |made| ::
                  Alive(v, made, n) <==> Alive(view, made, n) && made[n] != i)
  {
  }

  lemma DoublingKeeps(queue: seq<nat>, view: seq<Content>, made: seq<nat>, limit: nat, more: seq<nat>,
                      fresh': seq<Content>)
    requires Good(queue, view, made, limit) && |more| == |fresh'| && |view| + |more| <= limit
    requires forall i | 0 <= i < |more| :: more[i] == |view| + i && fresh'[i].index == VOID_POOL_ID
    ensures Good(queue + more, view + fresh', made, limit)
    ensures forall n {:trigger Alive(view + fresh', made, n)} :: Alive(view + fresh', made, n) <==> Alive(view, made, n)
  {
    var all := queue + more;
    forall i | |view| <= i < |view + fresh'| ensures i in all {
      assert all[|queue| + i - |view|] == i;
    }
    assert forall i | 0 <= i < |queue| :: queue[i] in queue;
  }

  /** What a handle finds is an object it was made for: the object of creation n while it is there, and afterwards
      nothing, unless a creation a multiple of limit later has taken its place. */
  lemma Finds(queue: seq<nat>, view: seq<Content>, made: seq<nat>, limit: nat, u: nat)
    requires Good(queue, view, made, limit)
    ensures var i := u % limit;
            var found := i < |view| && view[i].index != VOID_POOL_ID && view[i].uniqueId == u;
            && (found ==> exists n {:trigger Alive(view, made, n)} ::
                            Alive(view, made, n) && made[n] == i && u == Handle(n + 1, i, limit))
            && (forall n {:trigger made[n]} | 0 <= n < |made| && u == Handle(n + 1, made[n], limit) ::
                  && i == made[n]
                  && (found <==> view[i].index != VOID_POOL_ID && view[i].serial % limit == (n + 1) % limit)
                  && (|made| < limit ==> (found <==> Alive(view, made, n))))
  {
    var i := u % limit;
    if i < |view| && view[i].index != VOID_POOL_ID && view[i].uniqueId == u {
      assert Alive(view, made, view[i].serial - 1);
    }
    forall n | 0 <= n < |made| && u == Handle(n + 1, made[n], limit)
      ensures i == made[n]
      ensures view[i].index != VOID_POOL_ID ==> (view[i].uniqueId == u <==> view[i].serial % limit == (n + 1) % limit)
      ensures |made| < limit && view[i].index != VOID_POOL_ID ==>
                view[i].serial % limit == view[i].serial && (n + 1) % limit == n + 1
    {
      var serial := if view[made[n]].index != VOID_POOL_ID then view[made[n]].serial else 0;
      SameHandle(n + 1, made[n], serial, made[n], limit);
      if |made| < limit && view[i].index != VOID_POOL_ID {
        DivModUnique(n + 1, limit, 0, n + 1);
        DivModUnique(view[i].serial, limit, 0, view[i].serial);
      }
    }
  }

  /** Memory for an object. */
  class Slot {
    var index: int
    var uniqueId: nat

    constructor ()
      ensures index == VOID_POOL_ID
    {
      index := VOID_POOL_ID;
      uniqueId := 0;
    }
  }

  ghost predicate Hold(ss: seq<Slot>, view: seq<Content>)
    reads ss
  {
    && |ss| == |view|
    && forall i {:trigger ss[i]} {:trigger view[i]} | 0 <= i < |ss| ::
         ss[i].index == view[i].index && ss[i].uniqueId == view[i].uniqueId
  }

  class CPoolIndex {
    const limit: nat
    var arrPtr: array<Slot>
    var cnt: nat
    var queue: seq<nat>
    var autoId: nat
    // the places and what they hold; of every creation so far, what place it took
    ghost var slots: seq<Slot>
    ghost var view: seq<Content>
    ghost var made: seq<nat>

    /** The array points to the objects' places, which hold what view says. */
    ghost predicate Laid()
      reads this, arrPtr, slots
    {
      && 0 < cnt <= limit && cnt == arrPtr.Length && slots == arrPtr[..] && |view| == cnt
      && Distinct(slots) && Hold(slots, view)
    }

    ghost predicate Valid()
      reads this, arrPtr, slots
    {
      Laid() && Good(queue, view, made, limit) && autoId == |made| % limit
    }

    constructor (limit: nat, num: nat)
      requires 0 < num <= limit
      ensures Valid() && cnt == num && made == [] && this.limit == limit && fresh(slots) && fresh(arrPtr)
    {
      this.limit := limit;
      var ss := NewSlots(num);
      var a := ArrayOf(ss);
      arrPtr := a;
      cnt := num;
      queue := Ids(0, num);
      autoId := 0;
      made, slots, view := [], ss, ContentOf(ss);
      NewIsGood(Ids(0, num), ContentOf(ss), limit);
      hide Good, Hold, Distinct;
    }

    static ghost function ContentOf(ss: seq<Slot>): (v: seq<Content>)
      reads ss
      ensures |v| == |ss| && Hold(ss, v)
    {
      if ss == [] then [] else ContentOf(ss[..|ss| - 1]) + [Content(ss[|ss| - 1].index, ss[|ss| - 1].uniqueId, 0)]
    }

    static method NewSlots(n: nat) returns (ss: seq<Slot>)
      ensures |ss| == n && fresh(ss)
      ensures forall i | 0 <= i < n :: ss[i].index == VOID_POOL_ID
      ensures forall i | 0 <= i < n :: ContentOf(ss)[i].index == VOID_POOL_ID
      ensures Distinct(ss)
    {
      ss := [];
      for k := 0 to n
        invariant |ss| == k && fresh(ss)
        invariant forall i | 0 <= i < k :: ss[i].index == VOID_POOL_ID
        invariant Distinct(ss)
      {
        var s := new Slot();
        ss := ss + [s];
      }
    }

    /** As many places again, if malloc has the memory. The objects stay where they are. */
    method Double(ok: bool) returns (done: bool)
      requires Valid() && (ok ==> 2 * cnt <= limit)
      modifies this`arrPtr, this`cnt, this`queue, this`slots, this`view
      ensures Valid() && done == ok
      ensures !ok ==> queue == old(queue) && slots == old(slots) && view == old(view)
      ensures ok ==> cnt == 2 * old(cnt) && old(slots) <= slots && fresh(slots[old(cnt)..])
      ensures ok ==> queue == old(queue) + Ids(old(cnt), old(cnt)) && queue != []
      ensures forall s | s in slots :: s in old(slots) || fresh(s)
      ensures forall n :: Alive(view, made, n) <==> Alive(old(view), made, n)
    {
      hide Good, Alive, Distinct, Hold;
      if !ok {
        return false;
      }
      var more := NewSlots(cnt);
      assert forall s | s in slots :: s !in more;
      AddSlots(more);
      return true;
    }

    method AddSlots(more: seq<Slot>)
      requires Valid() && |more| == cnt && 2 * cnt <= limit && Distinct(more)
      requires forall s | s in slots :: s !in more
      requires forall i | 0 <= i < cnt :: ContentOf(more)[i].index == VOID_POOL_ID
      modifies this`arrPtr, this`cnt, this`queue, this`slots, this`view
      ensures Valid() && cnt == 2 * old(cnt) && slots == old(slots) + more
      ensures queue == old(queue) + Ids(old(cnt), old(cnt)) && queue != []
      ensures forall n :: Alive(view, made, n) <==> Alive(old(view), made, n)
    {
      hide Good, Alive, Distinct, Hold;
      var ids := Ids(cnt, cnt);
      DoublingKeeps(queue, view, made, limit, ids, ContentOf(more));
      arrPtr := ArrayOf(arrPtr[..] + more);
      queue := queue + ids;
      cnt := 2 * cnt;
      ApartFromNew(slots, more);
      HoldsMore(slots, more, view, ContentOf(more));
      slots, view := slots + more, view + ContentOf(more);
    }

    static lemma HoldsMore(ss: seq<Slot>, more: seq<Slot>, v: seq<Content>, w: seq<Content>)
      requires Hold(ss, v) && Hold(more, w)
      ensures Hold(ss + more, v + w)
    {
    }

    static lemma ApartFromNew(ss: seq<Slot>, more: seq<Slot>)
      requires Distinct(ss) && Distinct(more) && forall s | s in ss :: s !in more
      ensures Distinct(ss + more)
    {
      forall i, j | 0 <= i < j < |ss + more| ensures (ss + more)[i] != (ss + more)[j] {
        if i < |ss| <= j { assert ss[i] in ss && more[j - |ss|] in more; }
      }
    }

    static function Ids(from: nat, n: nat): (q: seq<nat>)
      ensures |q| == n && forall i | 0 <= i < n :: q[i] == from + i
    {
      seq(n, i => from + i)
    }

    static method ArrayOf(ss: seq<Slot>) returns (a: array<Slot>)
      ensures fresh(a) && a[..] == ss
    {
      a := new Slot[|ss|](i requires 0 <= i < |ss| => ss[i]);
    }

    /** operator new and the object's constructor: NULL just when no place is free and malloc fails; else a free place
        becomes the next creation's, and no other creation is affected. */
    method New(ok: bool) returns (p: Slot?)
      requires Valid() && (ok ==> 2 * cnt <= limit)
      modifies this, slots
      ensures Valid() && (p == null <==> old(queue) == [] && !ok)
      ensures p == null ==> made == old(made) && slots == old(slots)
      ensures p != null ==>
                |made| == |old(made)| + 1 && old(made) <= made && old(slots) <= slots && made[|old(made)|] < |slots|
      ensures p != null ==> slots[made[|old(made)|]] == p && p.uniqueId == Handle(|made|, made[|old(made)|], limit)
      ensures p != null ==> Alive(view, made, |old(made)|)
      ensures p != null && old(queue) != [] ==>
                made[|old(made)|] == old(queue)[0] && queue == old(queue)[1..] && slots == old(slots)
      ensures p != null && old(queue) == [] ==> cnt == 2 * old(cnt) && made[|old(made)|] == old(cnt)
      ensures forall n | 0 <= n < |old(made)| :: Alive(view, made, n) <==> Alive(old(view), old(made), n)
    {
      hide Good, Alive;
      if queue == [] {
        var done := Double(ok);
        if !done {
          return null;
        }
      }
      assert forall i | 0 <= i < |slots| :: slots[i] in old(slots) || fresh(slots[i]);
      p := Create();
    }

    method Create() returns (p: Slot)
      requires Valid() && queue != []
      modifies this`queue, this`autoId, this`made, this`view, slots
      ensures Valid()
      ensures |made| == |old(made)| + 1 && old(made) <= made && made[|old(made)|] < |slots|
      ensures slots[made[|old(made)|]] == p && p.uniqueId == Handle(|made|, made[|old(made)|], limit)
      ensures made[|old(made)|] == old(queue)[0] && queue == old(queue)[1..]
      ensures Alive(view, made, |old(made)|)
      ensures forall n | 0 <= n < |old(made)| :: Alive(view, made, n) <==> Alive(old(view), old(made), n)
    {
      hide Good, Alive;
      CreatingKeeps(queue, view, made, limit);
      CreatingKeepsOthers(queue, view, made, limit);
      NextSerial(|made|, limit);
      var id := queue[0];
      queue := queue[1..];
      p := arrPtr[id];
      p.index := id;
      autoId := (autoId + 1) % limit;
      p.uniqueId := autoId * limit + p.index;
      view := Created(view, made, limit, id);
      made := made + [id];
    }

    static lemma NextSerial(n: nat, limit: nat)
      requires limit > 0
      ensures (n % limit + 1) % limit == (n + 1) % limit
    {
      var q, r := n / limit, n % limit;
      if r + 1 < limit {
        DivModUnique(n + 1, limit, q, r + 1);
        DivModUnique(r + 1, limit, 0, r + 1);
      } else {
        assert n + 1 == (q + 1) * limit;
        DivModUnique(n + 1, limit, q + 1, 0);
        DivModUnique(r + 1, limit, 1, 0);
      }
    }

    method Delete(p: Slot)
      requires Valid() && p in slots && p.index != VOID_POOL_ID
      modifies this`queue, this`view, p`index
      ensures Valid() && p.index == VOID_POOL_ID && queue == old(queue) + [old(p.index)]
      ensures forall n | 0 <= n < |made| ::
                Alive(view, made, n) <==> Alive(old(view), made, n) && made[n] < |slots| && slots[made[n]] != p
    {
      ghost var i :| 0 <= i < |slots| && slots[i] == p;
      hide Good;
      DeletingKeeps(queue, view, made, limit, i);
      queue := queue + [p.index];
      p.index := VOID_POOL_ID;
      view := view[i := view[i].(index := VOID_POOL_ID)];
    }

    method GetByIdx(id: nat) returns (p: Slot?)
      requires Valid()
      ensures if id < |view| && view[id].index != VOID_POOL_ID then p == slots[id] else p == null
    {
      if id >= cnt {
        return null;
      }
      p := if arrPtr[id].index == VOID_POOL_ID then null else arrPtr[id];
    }

    method FindByUniqueId(uniqueId: nat) returns (p: Slot?)
      requires Valid()
      ensures p != null ==>
                exists n :: Alive(view, made, n) && p == slots[made[n]] && uniqueId == Handle(n + 1, made[n], limit)
      ensures forall n | 0 <= n < |made| && uniqueId == Handle(n + 1, made[n], limit) ::
                var i := made[n];
                i < |view| && p == if view[i].index != VOID_POOL_ID && view[i].serial % limit == (n + 1) % limit
                                     then slots[i] else null
      ensures |made| < limit ==> forall n | 0 <= n < |made| && uniqueId == Handle(n + 1, made[n], limit) ::
                p == if Alive(view, made, n) then slots[made[n]] else null
    {
      Finds(queue, view, made, limit, uniqueId);
      var ret := GetByIdx(uniqueId % limit);
      if ret != null && ret.uniqueId == uniqueId {
        return ret;
      }
      return null;
    }
  }
}
