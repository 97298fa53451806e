/** LogicMap: rooms with a limit of users, and an index that lists every room with free places under their number. */
module LogicMap {

  /** A Lua table used as a list: erasing leaves a hole, and # is some border, a place with nothing behind it. */
  type Slots = map<nat, nat>

  ghost predicate IsBorder(t: Slots, n: nat) {
    (n == 0 || n in t) && n + 1 !in t
  }

  function With(t: Slots, k: nat, m: nat): Slots {
    t[k := m]
  }

  ghost predicate Lists(t: Slots, m: nat) {
    exists k :: k in t && t[k] == m
  }

  ghost predicate ListsOnce(t: Slots, m: nat) {
    Lists(t, m) && forall k, l | k in t && l in t && t[k] == m && t[l] == m :: k == l
  }

  /** Places left in a room. */
  ghost function Left<P, D>(room: map<P, D>, max: nat): int {
    max - |room|
  }

  /** Bucket f, for rooms with f + 1 free places, lists the room rightly. */
  ghost predicate Placed<P, D>(room: map<P, D>, m: nat, t: Slots, f: nat, max: nat) {
    if Left(room, max) == f + 1 then ListsOnce(t, m) else !Lists(t, m)
  }

  /** Each room that is not skipped is listed once, in the bucket of its free places, and in no other; a full room in
      none. */
  ghost predicate Indexed<P, D>(rooms: seq<map<P, D>>, free: seq<Slots>, max: nat, skip: int) {
    && |free| == max
    && (forall f, k {:trigger free[f][k]} | 0 <= f < max && k in free[f] :: free[f][k] < |rooms| && free[f][k] != skip)
    && (forall m, f {:trigger rooms[m], free[f]} | 0 <= m < |rooms| && m != skip && 0 <= f < max ::
          Placed(rooms[m], m, free[f], f, max))
  }

  ghost predicate WithinLimit<P, D>(rooms: seq<map<P, D>>, max: nat) {
    forall m {:trigger rooms[m]} | 0 <= m < |rooms| :: |rooms[m]| <= max
  }

  /** A user is in the room noted for them, and in no other. */
  ghost predicate Noted<P, D>(rooms: seq<map<P, D>>, userRoom: map<P, nat>) {
    && (forall p | p in userRoom :: userRoom[p] < |rooms| && p in rooms[userRoom[p]])
    && (forall m, p {:trigger p in rooms[m]} | 0 <= m < |rooms| && p in rooms[m] :: p in userRoom && userRoom[p] == m)
  }

  /** Putting a room into the bucket of its free places, behind some border. */
  lemma AddingIndexes<P, D>(rooms: seq<map<P, D>>, free: seq<Slots>, max: nat, m: nat, n: nat)
    requires Indexed(rooms, free, max, m) && m < |rooms| && WithinLimit(rooms, max)
    ensures Left(rooms[m], max) == 0 ==> Indexed(rooms, free, max, -1)
    ensures var f := Left(rooms[m], max) - 1;
            f >= 0 && IsBorder(free[f], n) ==> Indexed(rooms, free[f := With(free[f], n + 1, m)], max, -1)
  {
    var left := Left(rooms[m], max);
    if left > 0 && IsBorder(free[left - 1], n) {
      var t := free[left - 1];
      var t': Slots := With(t, n + 1, m);
      assert n + 1 in t' && t'[n + 1] == m;
      forall i | i != m ensures Lists(t', i) <==> Lists(t, i) {
        if Lists(t, i) {
          var k :| k in t && t[k] == i;
          assert k in t' && t'[k] == i;
        }
      }
      var free' := free[left - 1 := t'];
      forall i, f | 0 <= i < |rooms| && 0 <= f < max ensures Placed(rooms[i], i, free'[f], f, max) {
        if i != m { assert Placed(rooms[i], i, free[f], f, max); }
      }
    }
  }

  /** Taking a listed room out. */
  lemma ErasingIndexes<P, D>(rooms: seq<map<P, D>>, free: seq<Slots>, max: nat, m: nat, k: nat)
    requires Indexed(rooms, free, max, -1) && m < |rooms|
    ensures Left(rooms[m], max) <= 0 ==> Indexed(rooms, free, max, m)
    ensures var f := Left(rooms[m], max) - 1;
            0 <= f < max && k in free[f] && free[f][k] == m ==> Indexed(rooms, free[f := free[f] - {k}], max, m)
  {
    var left := Left(rooms[m], max);
    forall f, l | 0 <= f < max && l in free[f] && free[f][l] == m ensures left == f + 1 {
      assert Lists(free[f], m);
    }
    if 0 < left <= max && k in free[left - 1] && free[left - 1][k] == m {
      var t := free[left - 1];
      assert Lists(t, m);
      forall i | i != m ensures Lists(t - {k}, i) <==> Lists(t, i) {
        if Lists(t, i) {
          var l :| l in t && t[l] == i;
          assert l in t - {k} && (t - {k})[l] == i;
        }
      }
      var free' := free[left - 1 := t - {k}];
      forall i, f | 0 <= i < |rooms| && i != m && 0 <= f < max ensures Placed(rooms[i], i, free'[f], f, max) {
        assert Placed(rooms[i], i, free[f], f, max);
      }
    }
  }

  /** No room with free places has fewer of them than room m, and m is a new room only when all are full. */
  ghost predicate BestFit<P, D>(rooms: seq<map<P, D>>, m: nat, max: nat) {
    forall i | 0 <= i < |rooms| && |rooms[i]| < max :: m < |rooms| && |rooms[i]| <= |rooms[m]| < max
  }

  ghost predicate IsFree<P, D>(rooms: seq<map<P, D>>, m: nat, max: nat) { m < |rooms| && |rooms[m]| < max }

  /** The user has joined room m, which was there or is new; nothing else has changed. */
  ghost predicate Entered<P, D>(was: seq<map<P, D>>, rooms: seq<map<P, D>>, m: nat, pid: P, data: D) {
    || (m < |was| && pid !in was[m] && rooms == was[m := was[m][pid := data]])
    || (m == |was| && rooms == was + [map[pid := data]])
  }

  /** The notes stay right just when the user was nowhere before. */
  lemma EnteringIsNoted<P, D>(was: seq<map<P, D>>, rooms: seq<map<P, D>>, userRoom: map<P, nat>, m: nat, pid: P,
                              data: D)
    requires Entered(was, rooms, m, pid, data)
    ensures Noted(was, userRoom) ==> (Noted(rooms, userRoom[pid := m]) <==> pid !in userRoom)
  {
    if Noted(was, userRoom) && pid in userRoom {
      var w := userRoom[pid];
      assert pid in was[w] && w != m;
      assert pid in rooms[w];
    }
  }

  /** A user who enters while all rooms are full, their own among them, is in two rooms, and noted in the second
      only. */
  method EnterAgain<P(==), D>(maps: LogicMap<P, D>, pid: P, data: D, otherPid: P)
    requires maps.Valid() && Noted(maps.rooms, maps.userRoom) && maps.userMax > 0
    requires pid in maps.userRoom && otherPid !in maps.userRoom
    requires forall i | 0 <= i < |maps.rooms| :: |maps.rooms[i]| == maps.userMax
    modifies maps
    ensures maps.Valid() && maps.rooms == old(maps.rooms) + [map[pid := data]] && !Noted(maps.rooms, maps.userRoom)
    ensures maps.userRoom == old(maps.userRoom)[pid := |old(maps.rooms)|]
  {
    hide Indexed, WithinLimit, Noted;
    var ok := maps.EnterMap(pid, data, otherPid);
    assert ok;
    EnteringIsNoted(old(maps.rooms), maps.rooms, old(maps.userRoom), |old(maps.rooms)|, pid, data);
  }

  /** So it goes with one place a room, for the first user entering twice. */
  method EnterTwice() returns (maps: LogicMap<nat, nat>)
    ensures maps.Valid() && maps.rooms == [map[1 := 0], map[1 := 0]] && maps.userRoom == map[1 := 1]
    ensures !Noted(maps.rooms, maps.userRoom)
  {
    maps := FirstEntered();
    EnterAgain(maps, 1, 0, 2);
  }

  method FirstEntered() returns (maps: LogicMap<nat, nat>)
    ensures fresh(maps) && maps.Valid() && Noted(maps.rooms, maps.userRoom) && maps.userMax == 1
    ensures maps.rooms == [map[1 := 0]] && maps.userRoom == map[1 := 0]
  {
    hide Indexed, WithinLimit, Noted;
    maps := new LogicMap(1);
    var ok := maps.EnterMap(1, 0, 2);
  }

  class LogicMap<P(==), D> {
    const userMax: nat
    var rooms: seq<map<P, D>>
    var free: seq<Slots>
    var userRoom: map<P, nat>

    /** skip is a room that has been taken out of the index for a moment, if any. */
    ghost predicate ValidBut(skip: int)
      reads this`rooms, this`free
    {
      Indexed(rooms, free, userMax, skip) && WithinLimit(rooms, userMax)
    }

    ghost predicate Valid()
      reads this`rooms, this`free
    {
      ValidBut(-1)
    }

    constructor (maxUserCnt: nat)
      ensures Valid() && userMax == maxUserCnt && rooms == [] && userRoom == map[] && Noted(rooms, userRoom)
    {
      userMax := maxUserCnt;
      rooms, userRoom := [], map[];
      free := seq(maxUserCnt, _ => map[]);
    }

    /** A place in t with nothing behind it, as Lua's # finds one. */
    static method Border(t: Slots) returns (n: nat)
      ensures IsBorder(t, n)
    {
      n := 0;
      ghost var seen := {};
      while n + 1 in t
        invariant n == 0 || n in t
        invariant seen <= t.Keys && |seen| == n && forall k | k in seen :: k <= n
        decreases |t| - n
      {
        n := n + 1;
        seen := seen + {n};
        SubsetSize(seen, t.Keys);
      }
    }

    static lemma SubsetSize(a: set<nat>, b: set<nat>)
      requires a <= b
      ensures |a| <= |b|
    {
      assert |b - a| + |a| == |b|;
    }

    method AddFreeIdx(m: nat)
      requires m < |rooms| && ValidBut(m)
      modifies this`free
      ensures Valid()
    {
      hide Indexed;
      var nFree := userMax - |rooms[m]|;
      if nFree > 0 {
        FreeSize(rooms, free, userMax, m);
        var n := Border(free[nFree - 1]);
        AddingIndexes(rooms, free, userMax, m, n);
        free := free[nFree - 1 := With(free[nFree - 1], n + 1, m)];
      } else {
        AddingIndexes(rooms, free, userMax, m, 0);
      }
    }

    static lemma FreeSize(rooms: seq<map<P, D>>, free: seq<Slots>, max: nat, skip: int)
      requires Indexed(rooms, free, max, skip)
      ensures |free| == max
    {
    }

    method DelFreeIdx(m: nat)
      requires m < |rooms| && Valid()
      modifies this`free
      ensures ValidBut(m)
    {
      var nFree := userMax - |rooms[m]|;
      if nFree > 0 {
        var t := free[nFree - 1];
        assert ListsOnce(t, m);
        var left := t.Keys;
        while left != {}
          invariant left <= t.Keys && exists k :: k in left && t[k] == m
        {
          var k :| k in left;
          if t[k] == m {
            ErasingIndexes(rooms, free, userMax, m, k);
            free := free[nFree - 1 := t - {k}];
            return;
          }
          left := left - {k};
        }
      } else {
        ErasingIndexes(rooms, free, userMax, m, 0);
      }
    }

    /** A room that is not full, none having fewer free places unless it is full; a new one just when all are full. */
    method GetFreeMapIdx() returns (m: nat)
      requires Valid()
      modifies this`rooms, this`free
      ensures Valid() && m < |rooms|
      ensures userMax > 0 ==> |rooms[m]| < userMax
      ensures rooms == old(rooms) || (rooms == old(rooms) + [map[]] && m == |old(rooms)|)
      ensures BestFit(old(rooms), m, userMax)
    {
      for i := 0 to |free|
        invariant forall f | 0 <= f < i :: free[f] == map[]
      {
        if free[i] != map[] {
          var k :| k in free[i];
          m := free[i][k];
          assert Lists(free[i], m);
          NoneFuller(rooms, free, userMax, i);
          return;
        }
      }
      NoneFuller(rooms, free, userMax, userMax);
      m := |rooms|;
      NewRoom(rooms, free, userMax);
      rooms := rooms + [map[]];
      AddFreeIdx(m);
    }

    static lemma NoneFuller(rooms: seq<map<P, D>>, free: seq<Slots>, max: nat, i: nat)
      requires Indexed(rooms, free, max, -1) && i <= max && forall f | 0 <= f < i :: free[f] == map[]
      ensures forall m | 0 <= m < |rooms| :: Left(rooms[m], max) <= 0 || Left(rooms[m], max) >= i + 1
    {
      forall m | 0 <= m < |rooms| ensures Left(rooms[m], max) <= 0 || Left(rooms[m], max) >= i + 1 {
        var left := Left(rooms[m], max);
        assert 0 < left <= i ==> Placed(rooms[m], m, free[left - 1], left - 1, max);
      }
    }

    static lemma NewRoom(rooms: seq<map<P, D>>, free: seq<Slots>, max: nat)
      requires Indexed(rooms, free, max, -1) && WithinLimit(rooms, max)
      ensures Indexed(rooms + [map[]], free, max, |rooms|) && WithinLimit(rooms + [map[]], max)
    {
    }

    static lemma ChangeSkipped(rooms: seq<map<P, D>>, free: seq<Slots>, max: nat, m: nat, room: map<P, D>)
      requires Indexed(rooms, free, max, m) && m < |rooms|
      ensures Indexed(rooms[m := room], free, max, m)
    {
    }

    /** The user goes into the room just when it exists, is not full and does not have them already. */
    method AddUserToMap(m: nat, pid: P, data: D) returns (ok: bool)
      requires Valid()
      modifies this`rooms, this`free
      ensures Valid()
      ensures ok <==> m < |old(rooms)| && pid !in old(rooms)[m] && |old(rooms)[m]| < userMax
      ensures rooms == if ok then old(rooms)[m := old(rooms)[m][pid := data]] else old(rooms)
      ensures !ok ==> free == old(free)
    {
      if m >= |rooms| || pid in rooms[m] {
        return false;
      }
      if |rooms[m]| >= userMax {
        return false;
      }
      DelFreeIdx(m);
      ChangeSkipped(rooms, free, userMax, m, rooms[m][pid := data]);
      rooms := rooms[m := rooms[m][pid := data]];
      AddFreeIdx(m);
      return true;
    }

    method DelUserToMap(m: nat, pid: P) returns (ok: bool)
      requires Valid()
      modifies this`rooms, this`free
      ensures Valid() && ok == (m < |old(rooms)|)
      ensures rooms == if ok then old(rooms)[m := old(rooms)[m] - {pid}] else old(rooms)
    {
      if m >= |rooms| {
        return false;
      }
      DelFreeIdx(m);
      ChangeSkipped(rooms, free, userMax, m, rooms[m] - {pid});
      rooms := rooms[m := rooms[m] - {pid}];
      AddFreeIdx(m);
      return true;
    }

    /** Beside otherPid, or wherever is least room. */
    method EnterMap(pid: P, data: D, otherPid: P) returns (ok: bool)
      requires Valid()
      modifies this
      ensures Valid()
      ensures ok ==> exists m :: userRoom == old(userRoom)[pid := m] && Entered(old(rooms), rooms, m, pid, data)
                                 && (m == |old(rooms)| || IsFree(old(rooms), m, userMax))
                                 && if otherPid in old(userRoom) then m == old(userRoom)[otherPid]
                                    else BestFit(old(rooms), m, userMax)
      ensures !ok ==> userRoom == old(userRoom)
      ensures !ok && (otherPid in old(userRoom) || userMax > 0) ==> rooms == old(rooms)
      ensures !ok ==> rooms == old(rooms) || rooms == old(rooms) + [map[]]
      ensures otherPid in old(userRoom) ==>
                var m := old(userRoom)[otherPid];
                ok <==> m < |old(rooms)| && pid !in old(rooms)[m] && |old(rooms)[m]| < userMax
      ensures otherPid !in old(userRoom) && !ok ==>
                userMax == 0 || exists m: nat :: IsFree(old(rooms), m, userMax) && pid in old(rooms)[m]
                                            && BestFit(old(rooms), m, userMax)
      ensures otherPid !in old(userRoom) && userMax == 0 ==> !ok
      ensures old(Noted(rooms, userRoom)) && pid !in old(userRoom) ==>
                (ok <==> if otherPid in old(userRoom) then |old(rooms)[old(userRoom)[otherPid]]| < userMax
                           else userMax > 0)
      ensures old(Noted(rooms, userRoom)) ==> (Noted(rooms, userRoom) <==> !ok || pid !in old(userRoom))
    {
      hide Indexed, WithinLimit;
      var m: nat;
      if otherPid in userRoom {
        m := userRoom[otherPid];
      } else {
        m := GetFreeMapIdx();
      }
      ok := AddUserToMap(m, pid, data);
      if ok {
        userRoom := userRoom[pid := m];
        assert Entered(old(rooms), rooms, m, pid, data);
        EnteringIsNoted(old(rooms), rooms, old(userRoom), m, pid, data);
      }
    }

    method ExitMap(pid: P) returns (ok: bool)
      requires Valid()
      modifies this
      ensures Valid()
      ensures old(Noted(rooms, userRoom)) ==> Noted(rooms, userRoom) && (ok <==> pid in old(userRoom))
      ensures ok ==> pid in old(userRoom) && userRoom == old(userRoom) - {pid}
                     && var m := old(userRoom)[pid]; m < |old(rooms)| && rooms == old(rooms)[m := old(rooms)[m] - {pid}]
      ensures !ok ==> userRoom == old(userRoom) && rooms == old(rooms)
    {
      if pid !in userRoom {
        return false;
      }
      ok := DelUserToMap(userRoom[pid], pid);
      if ok {
        userRoom := userRoom - {pid};
      }
    }
  }
}
