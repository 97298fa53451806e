/** ServiceVec: one function called for every object each timeCD, with calls made up for after a lag. The entries, read
    from the cursor, are in order of their times. */
module ServiceVec {
  import opened Common
  import opened Cyclic
  import opened Division

  datatype Entry<T> = Entry(time: int, obj: T)

  /** A call of the function: for which registration and object, due when, with which time difference. */
  datatype Call<T> = Call(id: nat, obj: T, due: int, diff: nat)

  /** Later entries are due later, but by no more than cd. */
  ghost predicate Ordered<T>(r: seq<Entry<T>>, cd: nat) {
    forall i, j | 0 <= i < j < |r| :: r[i].time <= r[j].time <= r[i].time + cd
  }

  ghost function Count<T>(log: seq<Call<T>>, id: nat): nat {
    if log == [] then 0 else Count(log[..|log| - 1], id) + if log[|log| - 1].id == id then 1 else 0
  }

  ghost predicate InDueOrder<T>(log: seq<Call<T>>) {
    forall i, j | 0 <= i < j < |log| :: log[i].due <= log[j].due
  }

  /** How many of first, first + cd, first + 2 cd, … are no later than t. */
  function DueBy(first: int, cd: nat, t: int): nat
    requires cd > 0
  {
    if first > t then 0 else (t - first) / cd + 1
  }

  lemma DueByIsUnique(first: int, cd: nat, t: int, n: nat)
    requires cd > 0 && t < first + n * cd <= t + cd
    ensures n == DueBy(first, cd, t)
  {
    var k := DueBy(first, cd, t);
    assert t < first + k * cd && (k > 0 ==> first + (k - 1) * cd <= t);
    hide DueBy;
    if n < k {
      TimesMonotone(n, k - 1, cd);
    } else if k < n {
      TimesMonotone(k + 1, n, cd);
    }
  }

  /** Whether an entry for timenow + cd can go to the back of the vector without disturbing the order. */
  predicate CanRegister<T>(vec: seq<Entry<T>>, pos: nat, cd: nat, timenow: int)
    requires InRange(pos, |vec|)
  {
    vec == [] || if pos == 0 then vec[0].time >= timenow else vec[0].time >= timenow + cd
  }

  /** It can just in those cases: with the cursor at the front and no entry overdue, or when all entries already passed
      are due as late. */
  lemma RegisterKeepsOrder<T>(vec: seq<Entry<T>>, pos: nat, cd: nat, timenow: int, obj: T)
    requires InRange(pos, |vec|) && Ordered(Rot(vec, pos), cd)
    requires forall k | 0 <= k < |vec| :: vec[k].time <= timenow + cd
    ensures Ordered(Rot(vec + [Entry(timenow + cd, obj)], pos), cd) <==> CanRegister(vec, pos, cd, timenow)
  {
    var e := Entry(timenow + cd, obj);
    var r, n := Rot(vec, pos), |vec| - pos;
    assert Rot(vec + [e], pos) == r[..n] + [e] + r[n..];
    assert forall k | 0 <= k < |r| :: r[k] in vec;
    InsertKeepsOrder(r, n, e, cd);
    if vec != [] {
      assert if pos == 0 then r[0] == vec[0] else r[n] == vec[0] && r[n].time <= r[0].time + cd;
    }
  }

  /** An entry due last put in behind n others. */
  lemma InsertKeepsOrder<T>(r: seq<Entry<T>>, n: nat, e: Entry<T>, cd: nat)
    requires n <= |r| && (r != [] ==> n > 0) && Ordered(r, cd) && forall k | 0 <= k < |r| :: r[k].time <= e.time
    ensures Ordered(r[..n] + [e] + r[n..], cd) <==> CanInsert(r, n, e, cd)
  {
    var r' := r[..n] + [e] + r[n..];
    assert r'[n] == e && (r != [] ==> r'[0] == r[0]) && (n < |r| ==> r'[n + 1] == r[n]);
    if CanInsert(r, n, e, cd) {
      forall i, j | 0 <= i < j < |r'| ensures r'[i].time <= r'[j].time <= r'[i].time + cd {
        InsertedPair(r, n, e, cd, i, j);
      }
    }
  }

  ghost predicate CanInsert<T>(r: seq<Entry<T>>, n: nat, e: Entry<T>, cd: nat)
    requires n <= |r|
  {
    r == [] || (e.time <= r[0].time + cd && (n < |r| ==> e.time <= r[n].time))
  }

  lemma InsertedPair<T>(r: seq<Entry<T>>, n: nat, e: Entry<T>, cd: nat, i: nat, j: nat)
    requires n <= |r| && CanInsert(r, n, e, cd) && Ordered(r, cd) && forall k | 0 <= k < |r| :: r[k].time <= e.time
    requires i < j <= |r|
    ensures var r' := r[..n] + [e] + r[n..]; r'[i].time <= r'[j].time <= r'[i].time + cd
  {
    if j == n {
      assert r[0].time <= r[i].time;
    } else if i == n {
      assert r[n].time <= r[j - 1].time;
    } else {
      assert r[if i < n then i else i - 1].time <= r[if j < n then j else j - 1].time;
    }
  }

  /** Serving the first entry: due later by cd, it goes to the end. */
  lemma ServeKeepsOrder<T>(r: seq<Entry<T>>, cd: nat)
    requires r != [] && Ordered(r, cd)
    ensures Ordered(r[1..] + [r[0].(time := r[0].time + cd)], cd)
  {
  }

  lemma ErasingKeepsOrder<T>(r: seq<Entry<T>>, i: nat, cd: nat)
    requires i < |r| && Ordered(r, cd)
    ensures Ordered(Without(r, i), cd)
  {
  }

  /** How far behind t the entries are, all together. */
  ghost function Lag<T>(vec: seq<Entry<T>>, cd: nat, t: int): nat {
    if vec == [] then 0 else Lag(vec[1..], cd, t) + Behind(vec[0], cd, t)
  }

  ghost function Behind<T>(e: Entry<T>, cd: nat, t: int): nat {
    if t - e.time + cd > 0 then t - e.time + cd else 0
  }

  lemma {:induction false} LagAt<T>(vec: seq<Entry<T>>, i: nat, x: Entry<T>, cd: nat, t: int)
    requires i < |vec|
    ensures Lag(vec, cd, t) == Lag(Without(vec, i), cd, t) + Behind(vec[i], cd, t)
    ensures Lag(vec[i := x], cd, t) == Lag(Without(vec, i), cd, t) + Behind(x, cd, t)
  {
    if i == 0 {
      assert Without(vec, 0) == vec[1..];
      assert vec[0 := x][1..] == vec[1..];
    } else {
      LagAt(vec[1..], i - 1, x, cd, t);
      assert Without(vec, i)[1..] == Without(vec[1..], i - 1);
      assert vec[i := x][1..] == vec[1..][i - 1 := x];
    }
  }

  ghost function Objects<T>(vec: seq<Entry<T>>): (os: seq<T>)
    ensures |os| == |vec| && forall k | 0 <= k < |vec| :: os[k] == vec[k].obj
  {
    seq(|vec|, k requires 0 <= k < |vec| => vec[k].obj)
  }

  // what holds of a service's entries, of the registration each is for, and of the registrations and calls so far

  /** No entry is due later than one period on. */
  ghost predicate Near<T>(vec: seq<Entry<T>>, cd: nat, latest: int) {
    forall k {:trigger vec[k]} | 0 <= k < |vec| :: vec[k].time <= latest + cd
  }

  /** The entries, read from the cursor, are in order of their times and within one period. */
  ghost predicate Order<T>(vec: seq<Entry<T>>, pos: nat, cd: nat, latest: int) {
    InRange(pos, |vec|) && Ordered(Rot(vec, pos), cd) && Near(vec, cd, latest)
  }

  ghost predicate Ids<T>(id: seq<nat>, made: seq<Entry<T>>, log: seq<Call<T>>) {
    && (forall k {:trigger id[k]} | 0 <= k < |id| :: id[k] < |made|)
    && (forall k, l | 0 <= k < l < |id| :: id[k] != id[l])
    && (forall c | c in log :: c.id < |made| && c.obj == made[c.id].obj)
  }

  ghost predicate CountedAs<T>(e: Entry<T>, made: Entry<T>, n: nat, cd: nat) {
    e == made.(time := made.time + n * cd)
  }

  /** An entry has been called once for each time it was due, up to the time it is due next. */
  ghost predicate Counted<T>(vec: seq<Entry<T>>, id: seq<nat>, made: seq<Entry<T>>, log: seq<Call<T>>, cd: nat)
    requires Ids(id, made, log)
  {
    && |id| == |vec|
    && forall k {:trigger vec[k]} | 0 <= k < |vec| :: CountedAs(vec[k], made[id[k]], Count(log, id[k]), cd)
  }

  ghost predicate InTime<T>(vec: seq<Entry<T>>, log: seq<Call<T>>, latest: int) {
    && InDueOrder(log)
    && (forall c | c in log :: c.due <= latest && forall k {:trigger vec[k]} | 0 <= k < |vec| :: c.due <= vec[k].time)
  }

  lemma {:induction false} NotCalledYet<T>(log: seq<Call<T>>, n: nat)
    requires forall c | c in log :: c.id < n
    ensures Count(log, n) == 0
  {
    if log != [] { NotCalledYet(log[..|log| - 1], n); }
  }

  lemma RegisteredCounted<T>(vec: seq<Entry<T>>, id: seq<nat>, made: seq<Entry<T>>, log: seq<Call<T>>, cd: nat,
                             e: Entry<T>)
    requires Ids(id, made, log) && Counted(vec, id, made, log, cd)
    ensures Ids(id + [|made|], made + [e], log) && Counted(vec + [e], id + [|made|], made + [e], log, cd)
  {
    NotCalledYet(log, |made|);
    forall k | 0 <= k < |vec| ensures CountedAs(vec[k], (made + [e])[id[k]], Count(log, id[k]), cd) {
    }
  }

  lemma RegisteredKeeps<T>(vec: seq<Entry<T>>, pos: nat, id: seq<nat>, made: seq<Entry<T>>, log: seq<Call<T>>,
                           cd: nat, t: int, obj: T)
    requires InRange(pos, |vec|) && Near(vec, cd, t) && Ids(id, made, log) && Counted(vec, id, made, log, cd)
    ensures var e := Entry(t + cd, obj); var v := vec + [e];
            && InRange(pos, |v|) && Near(v, cd, t)
            && Ids(id + [|made|], made + [e], log) && Counted(v, id + [|made|], made + [e], log, cd)
            && Lag(v, cd, t) == Lag(vec, cd, t)
            && (Order(vec, pos, cd, t) && InTime(vec, log, t) ==>
                  (Order(v, pos, cd, t) && InTime(v, log, t) <==> CanRegister(vec, pos, cd, t)))
  {
    RegisteredCounted(vec, id, made, log, cd, Entry(t + cd, obj));
    LagBehind(vec, Entry(t + cd, obj), cd, t);
    if Order(vec, pos, cd, t) {
      RegisterKeepsOrder(vec, pos, cd, t, obj);
    }
    hide Counted, Ids, Rot, Ordered;
  }

  lemma ErasedCounted<T>(vec: seq<Entry<T>>, id: seq<nat>, made: seq<Entry<T>>, log: seq<Call<T>>, cd: nat, i: nat)
    requires Ids(id, made, log) && Counted(vec, id, made, log, cd) && i < |vec|
    ensures Ids(Without(id, i), made, log) && Counted(Without(vec, i), Without(id, i), made, log, cd)
  {
  }

  lemma ErasedNear<T>(vec: seq<Entry<T>>, log: seq<Call<T>>, cd: nat, t: int, i: nat)
    requires i < |vec| && Near(vec, cd, t)
    ensures Near(Without(vec, i), cd, t) && (InTime(vec, log, t) ==> InTime(Without(vec, i), log, t))
  {
    assert forall e | e in Without(vec, i) :: e in vec;
  }

  lemma ErasedKeeps<T>(vec: seq<Entry<T>>, pos: nat, id: seq<nat>, made: seq<Entry<T>>, log: seq<Call<T>>, cd: nat,
                       t: int, i: nat)
    requires InRange(pos, |vec|) && Near(vec, cd, t) && Ids(id, made, log) && Counted(vec, id, made, log, cd)
    requires i < |vec|
    ensures |id| == |vec| && pos < |vec|
    ensures var v := Without(vec, i); var p := AfterErase(pos, i, |vec|);
            && InRange(p, |v|) && Near(v, cd, t) && Ids(Without(id, i), made, log)
            && Counted(v, Without(id, i), made, log, cd)
            && Rot(v, p) == Without(Rot(vec, pos), PlaceInReading(i, pos, |vec|))
            && (Order(vec, pos, cd, t) ==> Order(v, p, cd, t)) && (InTime(vec, log, t) ==> InTime(v, log, t))
    ensures forall u :: Lag(Without(vec, i), cd, u) <= Lag(vec, cd, u)
  {
    EraseKeepsReading(vec, pos, i);
    if Order(vec, pos, cd, t) { ErasedOrder(vec, pos, cd, t, i); }
    ErasedCounted(vec, id, made, log, cd, i);
    ErasedNear(vec, log, cd, t, i);
    hide Counted, Ids, Near, Order, InTime, Rot, Without, PlaceInReading;
    forall u ensures Lag(Without(vec, i), cd, u) <= Lag(vec, cd, u) {
      LagAt(vec, i, vec[i], cd, u);
    }
  }

  /** The entry's next time and the call just made. */
  lemma ServedCounted<T>(vec: seq<Entry<T>>, id: seq<nat>, made: seq<Entry<T>>, log: seq<Call<T>>, cd: nat, i: nat,
                         c: Call<T>)
    requires Ids(id, made, log) && Counted(vec, id, made, log, cd) && i < |vec| && c.id == id[i] && c.obj == vec[i].obj
    ensures Ids(id, made, log + [c]) && Counted(vec[i := vec[i].(time := vec[i].time + cd)], id, made, log + [c], cd)
  {
  }

  lemma ErasedOrder<T>(vec: seq<Entry<T>>, pos: nat, cd: nat, latest: int, i: nat)
    requires Order(vec, pos, cd, latest) && i < |vec|
    ensures Order(Without(vec, i), AfterErase(pos, i, |vec|), cd, latest)
  {
    EraseKeepsReading(vec, pos, i);
    ErasingKeepsOrder(Rot(vec, pos), PlaceInReading(i, pos, |vec|), cd);
  }

  lemma ServedOrder<T>(vec: seq<Entry<T>>, pos: nat, cd: nat, latest: int)
    requires Order(vec, pos, cd, latest) && pos < |vec| && vec[pos].time <= latest
    ensures Order(vec[pos := vec[pos].(time := vec[pos].time + cd)], Next(pos, |vec|), cd, latest)
  {
    StepReading(vec, pos, vec[pos].(time := vec[pos].time + cd));
    ServeKeepsOrder(Rot(vec, pos), cd);
  }

  /** The entry under the cursor is due first. */
  lemma CursorIsFirst<T>(vec: seq<Entry<T>>, pos: nat, cd: nat, latest: int)
    requires Order(vec, pos, cd, latest) && pos < |vec|
    ensures forall k | 0 <= k < |vec| :: vec[pos].time <= vec[k].time
  {
    forall k | 0 <= k < |vec| ensures vec[pos].time <= vec[k].time {
      assert vec[pos] == Rot(vec, pos)[0] && vec[k] == Rot(vec, pos)[if k >= pos then k - pos else |vec| - pos + k];
    }
  }

  lemma ServedInTime<T>(vec: seq<Entry<T>>, log: seq<Call<T>>, latest: int, i: nat, cd: nat, c: Call<T>)
    requires InTime(vec, log, latest) && i < |vec| && c.due == vec[i].time <= latest
    requires forall k | 0 <= k < |vec| :: vec[i].time <= vec[k].time
    ensures InTime(vec[i := vec[i].(time := vec[i].time + cd)], log + [c], latest)
  {
  }

  lemma ServedLag<T>(vec: seq<Entry<T>>, i: nat, cd: nat, t: int)
    requires i < |vec| && vec[i].time <= t && cd > 0
    ensures Lag(vec[i := vec[i].(time := vec[i].time + cd)], cd, t) < Lag(vec, cd, t)
  {
    LagAt(vec, i, vec[i].(time := vec[i].time + cd), cd, t);
  }

  function Later<T>(vec: seq<Entry<T>>, i: nat, cd: nat): (v: seq<Entry<T>>)
    requires i < |vec|
    ensures |v| == |vec|
  {
    vec[i := vec[i].(time := vec[i].time + cd)]
  }

  lemma ServedKeeps<T>(vec: seq<Entry<T>>, pos: nat, id: seq<nat>, made: seq<Entry<T>>, log: seq<Call<T>>, cd: nat,
                       t: int, c: Call<T>)
    requires InRange(pos, |vec|) && Near(vec, cd, t) && Ids(id, made, log) && Counted(vec, id, made, log, cd)
    requires cd > 0 && pos < |vec| && vec[pos].time <= t && c.id == id[pos] && c.obj == vec[pos].obj
    requires c.due == vec[pos].time
    ensures var v, p := Later(vec, pos, cd), Next(pos, |vec|);
            && InRange(p, |v|) && Near(v, cd, t) && Ids(id, made, log + [c]) && Counted(v, id, made, log + [c], cd)
            && Lag(v, cd, t) < Lag(vec, cd, t)
            && (Order(vec, pos, cd, t) && InTime(vec, log, t) ==> Order(v, p, cd, t) && InTime(v, log + [c], t))
  {
    StepReading(vec, pos, Later(vec, pos, cd)[pos]);
    ServedCounted(vec, id, made, log, cd, pos, c);
    ServedLag(vec, pos, cd, t);
    assert Near(Later(vec, pos, cd), cd, t);
    hide Counted, Ids, Near, InTime, Rot, Lag, Order;
    if Order(vec, pos, cd, t) && InTime(vec, log, t) {
      CursorIsFirst(vec, pos, cd, t);
      ServedOrder(vec, pos, cd, t);
      ServedInTime(vec, log, t, pos, cd, c);
    }
  }

  lemma TimePasses<T>(vec: seq<Entry<T>>, pos: nat, log: seq<Call<T>>, cd: nat, t: int, u: int)
    requires Near(vec, cd, t) && t <= u
    ensures Near(vec, cd, u)
    ensures Order(vec, pos, cd, t) && InTime(vec, log, t) ==> Order(vec, pos, cd, u) && InTime(vec, log, u)
  {
  }

  /** The calls an entry has had and those it is still owed are all it has been due. */
  lemma CallsAndOwed<T>(vec: seq<Entry<T>>, id: seq<nat>, made: seq<Entry<T>>, log: seq<Call<T>>, cd: nat, t: int)
    requires Near(vec, cd, t) && Ids(id, made, log) && Counted(vec, id, made, log, cd) && cd > 0
    ensures |id| == |vec| && forall k | 0 <= k < |id| ::
              id[k] < |made| && Count(log, id[k]) + DueBy(vec[k].time, cd, t) == DueBy(made[id[k]].time, cd, t)
  {
    forall k | 0 <= k < |id| ensures Count(log, id[k]) + DueBy(vec[k].time, cd, t) == DueBy(made[id[k]].time, cd, t) {
      assert CountedAs(vec[k], made[id[k]], Count(log, id[k]), cd);
      OwedOn(made[id[k]].time, vec[k].time, cd, t, Count(log, id[k]));
    }
  }

  lemma OwedOn(first: int, next: int, cd: nat, t: int, n: nat)
    requires cd > 0 && next == first + n * cd <= t + cd
    ensures n + DueBy(next, cd, t) == DueBy(first, cd, t)
  {
    var k := DueBy(next, cd, t);
    assert t < next + k * cd <= t + cd;
    assert (n + k) * cd == n * cd + k * cd;
    DueByIsUnique(first, cd, t, n + k);
  }

  /** Entries due by t are of the first n0 registrations. */
  ghost predicate DueAreOld<T>(vec: seq<Entry<T>>, id: seq<nat>, n0: nat, t: int) {
    |id| == |vec| && forall k {:trigger vec[k]} | 0 <= k < |vec| && vec[k].time <= t :: id[k] < n0
  }

  lemma AllAreOld<T>(id: seq<nat>, made: seq<Entry<T>>, log: seq<Call<T>>, vec: seq<Entry<T>>, t: int)
    requires Ids(id, made, log) && |id| == |vec|
    ensures DueAreOld(vec, id, |made|, t)
  {
  }

  lemma ErasedAreOld<T>(vec: seq<Entry<T>>, id: seq<nat>, i: nat)
    requires i < |vec| == |id|
    ensures forall n0, t :: DueAreOld(vec, id, n0, t) ==> DueAreOld(Without(vec, i), Without(id, i), n0, t)
    ensures forall x | x in Without(id, i) :: x in id
  {
  }

  ghost predicate Descend(was: seq<nat>, id: seq<nat>, n0: nat) {
    forall x | x in id :: x in was || x >= n0
  }

  /** Once the entry under the cursor is not due, none is, if they are in order. */
  lemma InOrderGives<T>(vec: seq<Entry<T>>, pos: nat, log: seq<Call<T>>, cd: nat, t: int)
    requires Order(vec, pos, cd, t) && InTime(vec, log, t) && cd > 0 && (pos < |vec| ==> vec[pos].time > t)
    ensures forall k | 0 <= k < |vec| :: vec[k].time > t && DueBy(vec[k].time, cd, t) == 0
    ensures InDueOrder(log)
  {
    if pos < |vec| {
      CursorIsFirst(vec, pos, cd, t);
    }
  }

  /** What RunSevice does when callbacks change nothing. */
  ghost function Served<T>(vec: seq<Entry<T>>, pos: nat, cd: nat, t: int): (seq<Entry<T>>, nat)
    requires cd > 0
    decreases Lag(vec, cd, t)
  {
    if pos < |vec| && vec[pos].time <= t then
      ServedLag(vec, pos, cd, t);
      Served(Later(vec, pos, cd), Next(pos, |vec|), cd, t)
    else (vec, pos)
  }

  lemma {:induction false} LagBehind<T>(vec: seq<Entry<T>>, e: Entry<T>, cd: nat, t: int)
    ensures Lag(vec + [e], cd, t) == Lag(vec, cd, t) + Behind(e, cd, t)
  {
    if vec != [] {
      LagBehind(vec[1..], e, cd, t);
      assert (vec + [e])[1..] == vec[1..] + [e];
    }
  }

  // ----- registering in the middle of a round -----

  /** Period 10: a registered at 0, b at 5, a called at 10, c registered at 12. Then the entries are out of order, and
      at 21 a, due at 20, waits behind c, due at 22. */
  lemma RegisterOutOfOrder<T>(a: T, b: T, c: T)
    ensures Served([Entry(10, a), Entry(15, b)], 0, 10, 10) == ([Entry(20, a), Entry(15, b)], 1)
    ensures var vec := [Entry(20, a), Entry(15, b)];
            && Order(vec, 1, 10, 12) && !CanRegister(vec, 1, 10, 12) && !Ordered(Rot(vec + [Entry(22, c)], 1), 10)
            && Served(vec + [Entry(22, c)], 1, 10, 21) == ([Entry(20, a), Entry(25, b), Entry(22, c)], 2)
  {
    var vec := [Entry(20, a), Entry(15, b)];
    assert Served(vec, 1, 10, 10) == (vec, 1);
    assert Later([Entry(10, a), Entry(15, b)], 0, 10) == vec;
    assert Rot(vec, 1) == [Entry(15, b), Entry(20, a)];
    var more := vec + [Entry(22, c)];
    assert Rot(more, 1) == [Entry(15, b), Entry(22, c), Entry(20, a)];
    assert Rot(more, 1)[1].time > Rot(more, 1)[2].time;
    var done := [Entry(20, a), Entry(25, b), Entry(22, c)];
    assert Later(more, 1, 10) == done;
    assert Served(done, 2, 10, 21) == (done, 2);
  }

  /** A service and its callers: registrations and runs. */
  datatype Move<T> = Reg(obj: T, time: int) | Run(time: int)

  datatype Sched<T> = Sched(vec: seq<Entry<T>>, pos: nat, latest: int)

  ghost function Moved<T>(s: Sched<T>, m: Move<T>, cd: nat): Sched<T>
    requires cd > 0
  {
    match m
    case Reg(obj, time) => Sched(s.vec + [Entry(time + cd, obj)], s.pos, time)
    case Run(time) => var (vec, pos) := Served(s.vec, s.pos, cd, time); Sched(vec, pos, time)
  }

  /** What becomes of an empty service, time never going back. */
  ghost predicate Moves<T>(ss: seq<Sched<T>>, ms: seq<Move<T>>, cd: nat)
    requires cd > 0
  {
    && |ss| == |ms| + 1 && ss[0] == Sched([], 0, 0)
    && forall i {:trigger ms[i]} | 0 <= i < |ms| :: ss[i].latest <= ms[i].time && ss[i + 1] == Moved(ss[i], ms[i], cd)
  }

  lemma OneMoreMove<T>(ss: seq<Sched<T>>, ms: seq<Move<T>>, cd: nat, m: Move<T>)
    returns (ss': seq<Sched<T>>, ms': seq<Move<T>>)
    requires cd > 0 && Moves(ss, ms, cd) && ss[|ms|].latest <= m.time
    ensures Moves(ss', ms', cd) && |ms'| == |ms| + 1 && ss'[|ms'|] == Moved(ss[|ms|], m, cd)
  {
    ss', ms' := ss + [Moved(ss[|ms|], m, cd)], ms + [m];
  }

  /** The cursor is on the last entry, which is due a period after now; entry 0 is due when it was. */
  ghost predicate Starves<T>(s: Sched<T>, cd: nat, now: int) {
    && |s.vec| > 1 && s.pos == |s.vec| - 1 && s.latest == now
    && s.vec[0].time == 2 * cd && s.vec[s.pos].time == now + cd
  }

  /** One registration a period, just before the last entry is called, keeps the cursor at the end. */
  lemma StarvesOn<T>(s: Sched<T>, cd: nat, now: int, obj: T) returns (r: Sched<T>)
    requires cd > 0 && Starves(s, cd, now)
    ensures r == Moved(Moved(s, Reg(obj, now + cd), cd), Run(now + cd), cd) && Starves(r, cd, now + cd)
  {
    var t := now + cd;
    var vec := s.vec + [Entry(t + cd, obj)];
    assert Served(Later(vec, s.pos, cd), s.pos + 1, cd, t) == (Later(vec, s.pos, cd), s.pos + 1);
    r := Sched(Later(vec, s.pos, cd), s.pos + 1, t);
  }

  /** So there is no bound on how long an entry that is due waits: for every delay there is a run of registrations,
      one a period, after which the first object has not been called for longer. */
  lemma {:induction false} NoBound<T>(cd: nat, n: nat, obj: T) returns (ss: seq<Sched<T>>, ms: seq<Move<T>>)
    requires cd > 0
    ensures Moves(ss, ms, cd) && Starves(ss[|ms|], cd, (n + 1) * cd)
    ensures ss[|ms|].latest == ss[|ms|].vec[0].time + (n - 1) * cd
  {
    if n == 0 {
      var first := Sched([Entry(cd, obj)], 0, 0);
      var second := Sched([Entry(cd, obj), Entry(2 * cd, obj)], 0, cd);
      var vec := [Entry(2 * cd, obj), Entry(2 * cd, obj)];
      assert Later(second.vec, 0, cd) == vec && Served(vec, 1, cd, cd) == (vec, 1);
      ss := [Sched([], 0, 0), first, second, Sched(vec, 1, cd)];
      ms := [Reg(obj, 0), Reg(obj, cd), Run(cd)];
    } else {
      ss, ms := NoBound(cd, n - 1, obj);
      var r := StarvesOn(ss[|ms|], cd, n * cd, obj);
      ss, ms := OneMoreMove(ss, ms, cd, Reg(obj, n * cd + cd));
      ss, ms := OneMoreMove(ss, ms, cd, Run(n * cd + cd));
    }
  }

  class ServiceVec<T(==)> {
    const timeCD: nat
    const others: seq<T>
    var runPos: nat
    var vec: seq<Entry<T>>
    // the calls made so far; all registrations so far, each with the time it was first due; which of them each entry is
    ghost var log: seq<Call<T>>
    ghost var made: seq<Entry<T>>
    ghost var id: seq<nat>
    ghost var latest: int

    /** What holds whoever registers when. */
    ghost predicate Valid()
      reads this
    {
      && InRange(runPos, |vec|) && Near(vec, timeCD, latest)
      && Ids(id, made, log) && Counted(vec, id, made, log, timeCD) && |id| == |vec|
    }

    /** What holds besides while every registration has kept the order. */
    ghost predicate InOrder()
      reads this
    {
      Order(vec, runPos, timeCD, latest) && InTime(vec, log, latest)
    }

    /** others are objects that callbacks may register. */
    constructor (timeCD: nat, others: seq<T>)
      ensures Valid() && InOrder() && this.timeCD == timeCD && vec == [] && log == [] && made == []
    {
      this.timeCD, this.others := timeCD, others;
      runPos, vec := 0, [];
      log, made, id, latest := [], [], [], 0;
    }

    method Register(obj: T, timenow: int)
      requires Valid() && timenow >= latest
      modifies this`vec, this`made, this`id, this`latest
      ensures Valid() && latest == timenow
      ensures vec == old(vec) + [Entry(timenow + timeCD, obj)] && id == old(id) + [|old(made)|]
      ensures made == old(made) + [Entry(timenow + timeCD, obj)]
      ensures old(InOrder()) ==> (InOrder() <==> CanRegister(old(vec), runPos, timeCD, timenow))
      ensures Lag(vec, timeCD, timenow) == old(Lag(vec, timeCD, timenow))
    {
      hide Counted, Ids, Near, Order, InTime, Lag;
      TimePasses(vec, runPos, log, timeCD, latest, timenow);
      RegisteredKeeps(vec, runPos, id, made, log, timeCD, timenow, obj);
      vec := vec + [Entry(timenow + timeCD, obj)];
      id := id + [|made|];
      made := made + [Entry(timenow + timeCD, obj)];
      latest := timenow;
    }

    /** The first entry for obj goes, wherever the cursor is; the other entries' order stays. */
    method UnRegister(obj: T)
      requires Valid()
      modifies this`vec, this`id, this`runPos
      ensures Valid() && (old(InOrder()) ==> InOrder())
      ensures (forall k | 0 <= k < |old(vec)| :: old(vec)[k].obj != obj) ==>
                vec == old(vec) && runPos == old(runPos) && id == old(id)
      ensures forall i: nat | IsFirst(Objects(old(vec)), obj, i) ::
                vec == Without(old(vec), i) && id == Without(old(id), i)
                && Rot(vec, runPos) == Without(Rot(old(vec), old(runPos)), PlaceInReading(i, old(runPos), |old(vec)|))
      ensures |id| <= |old(id)| && (|id| == |old(id)| ==> vec == old(vec) && id == old(id) && runPos == old(runPos))
      ensures forall x | x in id :: x in old(id)
      ensures forall n0, t :: old(DueAreOld(vec, id, n0, t)) ==> DueAreOld(vec, id, n0, t)
      ensures forall t :: Lag(vec, timeCD, t) <= old(Lag(vec, timeCD, t))
    {
      hide Counted, Ids, Near, Order, InTime, Lag, Rot, DueAreOld;
      for i := 0 to |vec|
        invariant vec == old(vec) && id == old(id) && runPos == old(runPos)
        invariant forall k | 0 <= k < i :: vec[k].obj != obj
      {
        if vec[i].obj == obj {
          assert forall j: nat | IsFirst(Objects(vec), obj, j) :: j == i;
          Erase(i);
          return;
        }
      }
    }

    method Erase(i: nat)
      requires Valid() && i < |vec|
      modifies this`vec, this`id, this`runPos
      ensures Valid() && (old(InOrder()) ==> InOrder())
      ensures i < |old(id)| && vec == Without(old(vec), i) && id == Without(old(id), i)
      ensures Rot(vec, runPos) == Without(Rot(old(vec), old(runPos)), PlaceInReading(i, old(runPos), |old(vec)|))
      ensures forall x | x in id :: x in old(id)
      ensures forall n0, t :: old(DueAreOld(vec, id, n0, t)) ==> DueAreOld(vec, id, n0, t)
      ensures forall t :: Lag(vec, timeCD, t) <= old(Lag(vec, timeCD, t))
    {
      hide Counted, Ids, Near, Order, Lag, InTime, Rot, Without, DueAreOld;
      ErasedKeeps(vec, runPos, id, made, log, timeCD, latest, i);
      ErasedAreOld(vec, id, i);
      vec := Without(vec, i);
      id := Without(id, i);
      if i < runPos {
        runPos := runPos - 1;
      } else if runPos >= |vec| {
        runPos := 0;
      }
    }

    /** The function called: it may unregister any objects, also the one it is called for, and register others. n0 is
        the number of registrations before the run. */
    method Func(obj: T, diff: nat, timenow: int, ghost n0: nat)
      requires Valid() && timenow == latest && timeCD > 0 && n0 <= |made| && DueAreOld(vec, id, n0, timenow)
      requires log != [] && log[|log| - 1].obj == obj && log[|log| - 1].diff == diff
      modifies this`vec, this`id, this`runPos, this`made, this`latest
      ensures Valid() && latest == timenow && DueAreOld(vec, id, n0, timenow)
      ensures Lag(vec, timeCD, timenow) <= old(Lag(vec, timeCD, timenow))
      ensures old(made) <= made && Descend(old(id), id, n0)
      ensures made == old(made) ==> (old(InOrder()) ==> InOrder()) && |id| <= |old(id)|
      ensures made == old(made) && |id| == |old(id)| ==> vec == old(vec) && id == old(id) && runPos == old(runPos)
    {
      hide Counted, Ids, Near, Order, Lag, InTime;
      var n: int := *;
      while n > 0
        invariant Valid() && latest == timenow && DueAreOld(vec, id, n0, timenow)
        invariant Lag(vec, timeCD, timenow) <= old(Lag(vec, timeCD, timenow))
        invariant old(made) <= made && Descend(old(id), id, n0)
        invariant made == old(made) ==> (old(InOrder()) ==> InOrder()) && |id| <= |old(id)|
        invariant made == old(made) && |id| == |old(id)| ==> vec == old(vec) && id == old(id) && runPos == old(runPos)
      {
        var i: int := *;
        var add: bool := *;
        if add && 0 <= i < |others| {
          Register(others[i], timenow);
        } else if 0 <= i < |vec| {
          UnRegister(vec[i].obj);
        }
        n := n - 1;
      }
    }

    /** One turn of the loop: the cursor moves on and the entry is due again before the function is called. */
    method Serve(timenow: int, ghost n0: nat) returns (ghost c: Call<T>)
      requires Valid() && timenow == latest && timeCD > 0 && n0 <= |made| && DueAreOld(vec, id, n0, timenow)
      requires runPos < |vec| && vec[runPos].time <= latest
      modifies this`runPos, this`vec, this`id, this`log, this`made, this`latest
      ensures Valid() && latest == timenow && DueAreOld(vec, id, n0, timenow)
      ensures Lag(vec, timeCD, timenow) < old(Lag(vec, timeCD, timenow))
      ensures old(made) <= made && Descend(old(id), id, n0)
      ensures made == old(made) ==> (old(InOrder()) ==> InOrder()) && |id| <= |old(id)|
      ensures made == old(made) && |id| == |old(id)| ==>
                id == old(id) && vec == Later(old(vec), old(runPos), timeCD) && runPos == Next(old(runPos), |vec|)
      ensures log == old(log) + [c] && c.id in old(id) && c.id < n0 && c.due == old(vec[runPos].time)
      ensures c.obj == old(vec[runPos].obj)
      ensures c.diff == Uint32(timeCD + Uint32(timenow - c.due))
    {
      hide Counted, Ids, Near, Order, Lag, InTime;
      c := Call(id[runPos], vec[runPos].obj, vec[runPos].time, Uint32(timeCD + Uint32(timenow - vec[runPos].time)));
      ServedKeeps(vec, runPos, id, made, log, timeCD, timenow, c);
      var i := runPos;
      runPos := runPos + 1;
      if runPos >= |vec| {
        runPos := 0;
      }
      var timeDiff := Uint32(timeCD + Uint32(timenow - vec[i].time));
      var obj := vec[i].obj;
      vec := vec[i := vec[i].(time := vec[i].time + timeCD)];
      log := log + [c];
      Func(obj, timeDiff, timenow, n0);
    }

    /** Whatever the lag and whatever was registered when, it ends; the entry under the cursor is not due then, and
        every object registered has had all the calls it was ever due but those its entry is still owed. While the
        order has been kept, nothing is due then, no call is owed, and all calls came in the order in which they were
        due. */
    method RunSevice(timenow: int)
      requires Valid() && timeCD > 0 && timenow >= latest
      modifies this`runPos, this`vec, this`id, this`log, this`made, this`latest
      ensures Valid() && latest == timenow && (runPos < |vec| ==> vec[runPos].time > timenow)
      ensures forall k | 0 <= k < |id| :: id[k] < |made|
                && Count(log, id[k]) + DueBy(vec[k].time, timeCD, timenow) == DueBy(made[id[k]].time, timeCD, timenow)
      ensures old(made) <= made && Descend(old(id), id, |old(made)|)
      ensures old(InOrder()) && made == old(made) ==> InOrder()
      ensures InOrder() ==>
                && InDueOrder(log) && (forall k | 0 <= k < |vec| :: vec[k].time > timenow)
                && (forall k | 0 <= k < |id| :: Count(log, id[k]) == DueBy(made[id[k]].time, timeCD, timenow))
      ensures made == old(made) && |id| == |old(id)| ==>
                id == old(id) && (vec, runPos) == Served(old(vec), old(runPos), timeCD, timenow)
      ensures old(log) <= log && forall j | |old(log)| <= j < |log| ::
                log[j].id < |old(made)| && log[j].diff == Uint32(timeCD + Uint32(timenow - log[j].due))
    {
      hide Counted, Ids, Near, Order, Lag, InTime, DueBy;
      TimePasses(vec, runPos, log, timeCD, latest, timenow);
      AllAreOld(id, made, log, vec, timenow);
      latest := timenow;
      while runPos < |vec|
        invariant Valid() && latest == timenow && old(made) <= made && DueAreOld(vec, id, |old(made)|, timenow)
        invariant Descend(old(id), id, |old(made)|)
        invariant made == old(made) ==> (old(InOrder()) ==> InOrder()) && |id| <= |old(id)|
        invariant made == old(made) && |id| == |old(id)| ==>
                    && id == old(id)
                    && Served(vec, runPos, timeCD, timenow) == Served(old(vec), old(runPos), timeCD, timenow)
        invariant old(log) <= log && forall j | |old(log)| <= j < |log| ::
                    log[j].id < |old(made)| && log[j].diff == Uint32(timeCD + Uint32(timenow - log[j].due))
        decreases Lag(vec, timeCD, timenow)
      {
        if vec[runPos].time <= timenow {
          ghost var c := Serve(timenow, |old(made)|);
        } else {
          break;
        }
      }
      CallsAndOwed(vec, id, made, log, timeCD, timenow);
      if InOrder() {
        InOrderGives(vec, runPos, log, timeCD, timenow);
      }
    }
  }
}
