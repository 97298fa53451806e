/** RpcQueue, the remote calls between two processes: requests and replies share one format, and a reply echoes the
    opcode and index of its request. */
module RpcQueue {
  import opened Common
  import opened Framing

  const UINT16: nat := 0x1_0000

  datatype Pack = Pack(op: nat, idx: nat, body: seq<byte>)

  const CLEARED := Pack(0, 0, [])

  /** GetReqKey */
  function KeyOf(p: Pack): nat {
    p.op * UINT32 + p.idx
  }

  /** A request taken for handling, and a callback run with the body of a reply. */
  datatype Took = Took(key: nat, body: seq<byte>)
  datatype Ran = Ran(key: nat, callback: nat, body: seq<byte>)

  /** One side: the opcodes it has a function for, the callbacks waiting, what has arrived, the reply being written, and
      what has been sent and not arrived. The rest is history: the calls made, callbacks registered for them and run,
      requests handled, replies sent, and empty replies that were not. */
  datatype Peer = Peer(
    handled: set<nat>, response: map<nat, nat>, queue: seq<Pack>, back: Pack, autoReq: nat, out: seq<Pack>,
    called: map<nat, seq<byte>>, registered: map<nat, nat>, ran: seq<Ran>,
    took: seq<Took>, replied: map<nat, seq<byte>>, silent: map<nat, seq<byte>>)

  ghost function Count(q: seq<Pack>, key: nat): nat {
    if q == [] then 0 else Count(q[..|q| - 1], key) + if KeyOf(q[|q| - 1]) == key then 1 else 0
  }

  ghost function TimesTaken(log: seq<Took>, key: nat): nat {
    if log == [] then 0 else TimesTaken(log[..|log| - 1], key) + if log[|log| - 1].key == key then 1 else 0
  }

  ghost function TimesRan(log: seq<Ran>, key: nat): nat {
    if log == [] then 0 else TimesRan(log[..|log| - 1], key) + if log[|log| - 1].key == key then 1 else 0
  }

  lemma KeyParts(p: Pack, q: Pack)
    requires p.idx < UINT32 && q.idx < UINT32
    ensures KeyOf(p) == KeyOf(q) <==> p.op == q.op && p.idx == q.idx
    ensures KeyOf(p) / UINT32 == p.op && KeyOf(p) % UINT32 == p.idx
  {
  }

  lemma {:induction false} CountFront(q: seq<Pack>, key: nat)
    requires q != []
    ensures Count(q, key) == Count(q[1..], key) + if KeyOf(q[0]) == key then 1 else 0
  {
    if |q| > 1 {
      CountFront(q[..|q| - 1], key);
      assert q[..|q| - 1][1..] == q[1..][..|q| - 2];
    }
  }

  // ----- the steps of one side -----

  /** _CallRpc: the request and the key it is known by. */
  function NextRequest(x: Peer, rid: nat, body: seq<byte>): Pack {
    Pack(rid, (x.autoReq + 1) % UINT32, body)
  }

  function Called(x: Peer, rid: nat, body: seq<byte>): Peer {
    var p := NextRequest(x, rid, body);
    x.(autoReq := p.idx, out := x.out + [p], called := x.called[KeyOf(p) := body])
  }

  function Registered(x: Peer, key: nat, callback: nat): Peer {
    x.(response := x.response[key := callback], registered := x.registered[key := callback])
  }

  /** _Handle up to the handler: a request gives the reply its head; a reply is given to the callback waiting for it. */
  function Handled(x: Peer): Peer
    requires x.queue != []
  {
    var p := x.queue[0];
    var r := x.(queue := x.queue[1..]);
    if p.op in x.handled then
      r.(back := Pack(p.op, p.idx, []), took := x.took + [Took(KeyOf(p), p.body)])
    else if KeyOf(p) in x.response then
      r.(response := x.response - {KeyOf(p)}, ran := x.ran + [Ran(KeyOf(p), x.response[KeyOf(p)], p.body)])
    else r
  }

  function Written(x: Peer, data: seq<byte>): Peer {
    x.(back := x.back.(body := x.back.body + data))
  }

  /** SendBackBuffer, within the handler or after it; the body's size is taken as 16 bits. */
  function SentBack(x: Peer): Peer {
    var r := x.(back := CLEARED);
    if |x.back.body| % UINT16 == 0 then r.(silent := x.silent[KeyOf(x.back) := x.back.body])
    else r.(out := x.out + [x.back], replied := x.replied[KeyOf(x.back) := x.back.body])
  }

  /** The I/O thread: the oldest message that y has sent arrives at x. */
  function Arrived(x: Peer, y: Peer): (Peer, Peer)
    requires y.out != []
  {
    (x.(queue := x.queue + [y.out[0]]), y.(out := y.out[1..]))
  }

  // ----- what holds between two sides -----

  /** A message on the way from one side to the other is a request it has made or a reply it has given. */
  ghost predicate Sent(p: Pack, mine: set<nat>, theirs: set<nat>, called: map<nat, seq<byte>>, replied: map<nat,
                       seq<byte>>) {
    && p.idx < UINT32
    && if p.op in theirs then KeyOf(p) in called && p.body == called[KeyOf(p)]
       else p.op in mine && KeyOf(p) in replied && p.body == replied[KeyOf(p)]
  }

  ghost predicate AllSent(q: seq<Pack>, mine: set<nat>, theirs: set<nat>, called: map<nat, seq<byte>>,
                          replied: map<nat, seq<byte>>) {
    forall p | p in q :: Sent(p, mine, theirs, called, replied)
  }

  /** Requests were handled as they were made, replies used as they were given, by the callback registered. */
  ghost predicate TookWhatWasCalled(took: seq<Took>, called: map<nat, seq<byte>>) {
    forall t | t in took :: t.key in called && t.body == called[t.key]
  }

  ghost predicate RanWhatWasReplied(ran: seq<Ran>, replied: map<nat, seq<byte>>, registered: map<nat, nat>) {
    forall r | r in ran ::
      r.key in replied && r.body == replied[r.key] && r.key in registered && r.callback == registered[r.key]
  }

  ghost predicate Waiting(response: map<nat, nat>, registered: map<nat, nat>) {
    forall k | k in response :: k in registered && response[k] == registered[k]
  }

  ghost predicate Numbered(called: map<nat, seq<byte>>, theirs: set<nat>, autoReq: nat) {
    autoReq < UINT32 && forall k | k in called :: k / UINT32 in theirs && k % UINT32 <= autoReq
  }

  ghost predicate Replying(back: Pack, handled: set<nat>) {
    back.op != 0 ==> back.op in handled && back.idx < UINT32
  }

  ghost predicate OwnReplies(replied: map<nat, seq<byte>>, silent: map<nat, seq<byte>>, handled: set<nat>) {
    && (forall k | k in replied :: k / UINT32 in handled && |replied[k]| % UINT16 != 0)
    && (forall k | k in silent :: |silent[k]| % UINT16 == 0)
  }

  ghost function Times(b: bool): nat { if b then 1 else 0 }

  /** A call is on its way, on y's queue, or has been taken, just once. When it has been taken, it is being handled, or
      has been replied to, or had an empty reply, just one of these. The reply is on its way, on x's queue, or has been
      used, once at most, and just once if there is a callback for it, which waits until then. */
  ghost predicate JustOnce(x: Peer, y: Peer, key: nat) {
    && Count(x.out, key) + Count(y.queue, key) + TimesTaken(y.took, key) == Times(key in x.called)
    && TimesTaken(y.took, key)
       == Times(key in y.replied) + Times(key in y.silent) + Times(y.back.op != 0 && KeyOf(y.back) == key)
    && Count(y.out, key) + Count(x.queue, key) + TimesRan(x.ran, key) <= Times(key in y.replied)
    && (key in x.registered ==>
          && Count(y.out, key) + Count(x.queue, key) + TimesRan(x.ran, key) == Times(key in y.replied)
          && (key in x.response <==> TimesRan(x.ran, key) == 0))
  }

  ghost predicate Counts(x: Peer, y: Peer) {
    forall key {:trigger JustOnce(x, y, key)} | key / UINT32 in y.handled :: JustOnce(x, y, key)
  }

  ghost predicate Records(x: Peer, y: Peer) {
    && AllSent(x.out, x.handled, y.handled, x.called, x.replied)
    && AllSent(y.queue, x.handled, y.handled, x.called, x.replied)
    && TookWhatWasCalled(y.took, x.called)
    && RanWhatWasReplied(x.ran, y.replied, x.registered)
    && Waiting(x.response, x.registered)
    && Numbered(x.called, y.handled, x.autoReq)
    && Replying(x.back, x.handled)
    && OwnReplies(x.replied, x.silent, x.handled)
  }

  /** No opcode has a function on both sides, and none is 0. */
  ghost predicate Good(x: Peer, y: Peer) {
    && x.handled !! y.handled && 0 !in x.handled && 0 !in y.handled
    && Records(x, y) && Records(y, x)
    && Counts(x, y) && Counts(y, x)
  }

  // ----- every step keeps it -----

  lemma CallKeepsRecords(x: Peer, y: Peer, rid: nat, body: seq<byte>)
    requires Good(x, y) && rid in y.handled && x.autoReq + 1 < UINT32
    ensures var p := NextRequest(x, rid, body);
            KeyOf(p) !in x.called && KeyOf(p) / UINT32 == rid && p.idx == x.autoReq + 1
    ensures Records(Called(x, rid, body), y) && Records(y, Called(x, rid, body))
  {
  }

  lemma CallKeeps(x: Peer, y: Peer, rid: nat, body: seq<byte>)
    requires Good(x, y) && rid in y.handled && x.autoReq + 1 < UINT32
    ensures Good(Called(x, rid, body), y)
  {
    var x' := Called(x, rid, body);
    CallKeepsRecords(x, y, rid, body);
    hide Records;
    assert x'.out[..|x.out|] == x.out;
    forall key | key / UINT32 in y.handled ensures JustOnce(x', y, key) {
      assert JustOnce(x, y, key);
    }
    forall key | key / UINT32 in x.handled ensures JustOnce(y, x', key) {
      assert JustOnce(y, x, key);
    }
  }

  lemma CallIsNew(x: Peer, y: Peer, rid: nat, body: seq<byte>)
    requires Good(x, y) && rid in y.handled && x.autoReq + 1 < UINT32
    ensures NextRequest(x, rid, body).idx == x.autoReq + 1 && x.handled !! y.handled
    ensures forall r | r in x.ran :: r.key != KeyOf(NextRequest(x, rid, body))
    ensures KeyOf(NextRequest(x, rid, body)) !in y.replied
  {
    CallKeepsRecords(x, y, rid, body);
    assert JustOnce(x, y, KeyOf(NextRequest(x, rid, body)));
    forall r | r in x.ran ensures r.key in x.called {
      Correlated(x, y, r);
    }
  }

  lemma {:induction false} NotRanIsNotCounted(ran: seq<Ran>, key: nat)
    requires forall r | r in ran :: r.key != key
    ensures TimesRan(ran, key) == 0
  {
    if ran != [] { NotRanIsNotCounted(ran[..|ran| - 1], key); }
  }

  lemma RegisterKeepsCount(x: Peer, y: Peer, key: nat, callback: nat, k: nat)
    requires key !in y.replied && TimesRan(x.ran, key) == 0
    ensures JustOnce(x, y, k) ==> JustOnce(Registered(x, key, callback), y, k)
    ensures JustOnce(y, x, k) ==> JustOnce(y, Registered(x, key, callback), k)
  {
    hide Count, TimesTaken, TimesRan, KeyOf;
  }

  lemma RegisterKeeps(x: Peer, y: Peer, key: nat, callback: nat)
    requires Good(x, y) && key !in y.replied && forall r | r in x.ran :: r.key != key
    ensures Good(Registered(x, key, callback), y)
  {
    var x' := Registered(x, key, callback);
    NotRanIsNotCounted(x.ran, key);
    assert Records(x', y) && Records(y, x') by {
      hide AllSent, TookWhatWasCalled, Numbered, Replying, Counts;
    }
    hide JustOnce, Records;
    forall k | k / UINT32 in y.handled ensures JustOnce(x', y, k) {
      RegisterKeepsCount(x, y, key, callback, k);
    }
    forall k | k / UINT32 in x.handled ensures JustOnce(y, x', k) {
      RegisterKeepsCount(x, y, key, callback, k);
    }
  }

  lemma WriteKeeps(x: Peer, y: Peer, data: seq<byte>)
    requires Good(x, y)
    ensures Good(Written(x, data), y)
  {
    var x' := Written(x, data);
    hide AllSent, TookWhatWasCalled, Numbered, RanWhatWasReplied, Waiting;
    forall key | key / UINT32 in y.handled ensures JustOnce(x', y, key) {
      assert JustOnce(x, y, key);
    }
    forall key | key / UINT32 in x.handled ensures JustOnce(y, x', key) {
      assert JustOnce(y, x, key);
    }
  }

  lemma HandleKeepsRecords(x: Peer, y: Peer)
    requires Good(x, y) && x.queue != []
    ensures var p := x.queue[0]; Sent(p, y.handled, x.handled, y.called, y.replied)
    ensures Records(Handled(x), y) && Records(y, Handled(x))
  {
  }

  lemma TakenFields(x: Peer, key: nat)
    requires x.queue != [] && x.queue[0].op in x.handled && x.queue[0].op != 0
    ensures var r, mine := Handled(x), KeyOf(x.queue[0]) == key;
            && Count(x.queue, key) == Count(r.queue, key) + Times(mine)
            && TimesTaken(r.took, key) == TimesTaken(x.took, key) + Times(mine)
            && (r.back.op != 0 && KeyOf(r.back) == key <==> mine)
            && r.out == x.out && r.called == x.called && r.ran == x.ran && r.replied == x.replied
            && r.silent == x.silent && r.registered == x.registered && r.response == x.response
  {
    CountFront(x.queue, key);
    assert Handled(x).took[..|x.took|] == x.took;
  }

  lemma TakeKeepsCount(x: Peer, y: Peer, key: nat)
    requires x.queue != [] && x.back.op == 0 && x.queue[0].op in x.handled && x.queue[0].op != 0
    ensures KeyOf(x.queue[0]) != key && JustOnce(x, y, key) ==> JustOnce(Handled(x), y, key)
    ensures JustOnce(y, x, key) ==> JustOnce(y, Handled(x), key)
  {
    hide Handled, Count, TimesTaken, TimesRan, KeyOf;
    TakenFields(x, key);
  }

  lemma UsedFields(x: Peer, key: nat)
    requires x.queue != [] && x.queue[0].op !in x.handled
    ensures var r, mine := Handled(x), KeyOf(x.queue[0]) == key;
            && Count(x.queue, key) == Count(r.queue, key) + Times(mine)
            && TimesRan(r.ran, key) == TimesRan(x.ran, key) + Times(mine && key in x.response)
            && (key in r.response <==> key in x.response && !mine)
            && r.out == x.out && r.called == x.called && r.took == x.took && r.replied == x.replied
            && r.silent == x.silent && r.registered == x.registered && r.back == x.back
  {
    CountFront(x.queue, key);
    assert Handled(x).ran != x.ran ==> Handled(x).ran[..|x.ran|] == x.ran;
  }

  lemma UseKeepsCount(x: Peer, y: Peer, key: nat)
    requires x.queue != [] && x.queue[0].op !in x.handled
    ensures JustOnce(x, y, key) ==> JustOnce(Handled(x), y, key)
    ensures KeyOf(x.queue[0]) != key && JustOnce(y, x, key) ==> JustOnce(y, Handled(x), key)
  {
    hide Handled, Count, TimesTaken, TimesRan, KeyOf;
    UsedFields(x, key);
  }

  lemma QueuedIsKnown(x: Peer, y: Peer)
    requires Good(x, y) && x.queue != []
    ensures x.queue[0].op in x.handled || x.queue[0].op in y.handled
  {
    HandleKeepsRecords(x, y);
  }

  lemma HandleKeepsCount(x: Peer, y: Peer, key: nat)
    requires x.queue != [] && x.back.op == 0 && x.handled !! y.handled && 0 !in x.handled
    requires Sent(x.queue[0], y.handled, x.handled, y.called, y.replied)
    ensures key / UINT32 in y.handled && JustOnce(x, y, key) ==> JustOnce(Handled(x), y, key)
    ensures key / UINT32 in x.handled && JustOnce(y, x, key) ==> JustOnce(y, Handled(x), key)
  {
    var p := x.queue[0];
    KeyParts(p, p);
    hide JustOnce;
    if p.op in x.handled {
      TakeKeepsCount(x, y, key);
    } else {
      UseKeepsCount(x, y, key);
    }
  }

  lemma HandleKeeps(x: Peer, y: Peer)
    requires Good(x, y) && x.queue != [] && x.back.op == 0
    ensures Good(Handled(x), y)
  {
    HandleKeepsRecords(x, y);
    hide JustOnce, Records;
    forall key | key / UINT32 in y.handled ensures JustOnce(Handled(x), y, key) {
      HandleKeepsCount(x, y, key);
    }
    forall key | key / UINT32 in x.handled ensures JustOnce(y, Handled(x), key) {
      HandleKeepsCount(x, y, key);
    }
  }

  lemma OneMoreReply(q: seq<Pack>, mine: set<nat>, theirs: set<nat>, called: map<nat, seq<byte>>, replied: map<nat,
                     seq<byte>>, p: Pack)
    requires AllSent(q, mine, theirs, called, replied) && KeyOf(p) !in replied && p.idx < UINT32 && p.op in mine
    requires p.op !in theirs
    ensures AllSent(q, mine, theirs, called, replied[KeyOf(p) := p.body])
    ensures AllSent(q + [p], mine, theirs, called, replied[KeyOf(p) := p.body])
  {
  }

  lemma MoreReplies(ran: seq<Ran>, replied: map<nat, seq<byte>>, registered: map<nat, nat>, key: nat, body: seq<byte>)
    requires RanWhatWasReplied(ran, replied, registered) && key !in replied
    ensures RanWhatWasReplied(ran, replied[key := body], registered)
  {
  }

  lemma MoreOwnReplies(x: Peer)
    requires OwnReplies(x.replied, x.silent, x.handled) && x.back.op in x.handled && x.back.idx < UINT32
    ensures OwnReplies(SentBack(x).replied, SentBack(x).silent, x.handled)
  {
    KeyParts(x.back, x.back);
    hide KeyOf;
  }

  lemma BackIsNew(x: Peer, y: Peer)
    requires Good(x, y) && x.back.op != 0
    ensures x.back.op in x.handled && x.back.op !in y.handled && x.back.idx < UINT32 && KeyOf(x.back) !in x.replied
  {
    KeyParts(x.back, x.back);
    assert JustOnce(y, x, KeyOf(x.back));
    hide KeyOf, Count, TimesTaken, TimesRan;
  }

  lemma SendBackKeepsRecords(x: Peer, y: Peer)
    requires Good(x, y) && x.back.op != 0
    ensures Records(SentBack(x), y) && Records(y, SentBack(x))
  {
    BackIsNew(x, y);
    OneMoreReply(x.out, x.handled, y.handled, x.called, x.replied, x.back);
    OneMoreReply(y.queue, x.handled, y.handled, x.called, x.replied, x.back);
    MoreReplies(y.ran, x.replied, y.registered, KeyOf(x.back), x.back.body);
    MoreOwnReplies(x);
    hide Counts, Numbered, TookWhatWasCalled, Waiting, AllSent, OwnReplies, RanWhatWasReplied, KeyOf;
  }

  lemma SentBackFields(x: Peer, key: nat)
    ensures var r, mine, full := SentBack(x), KeyOf(x.back) == key, |x.back.body| % UINT16 != 0;
            && Count(r.out, key) == Count(x.out, key) + Times(mine && full)
            && (key in r.replied <==> key in x.replied || (mine && full))
            && (key in r.silent <==> key in x.silent || (mine && !full))
            && r.back.op == 0 && r.queue == x.queue && r.called == x.called && r.took == x.took && r.ran == x.ran
            && r.registered == x.registered && r.response == x.response
  {
    hide Count, KeyOf;
    OneMoreCounted(x.out, x.back, key);
  }

  lemma OneMoreCounted(q: seq<Pack>, p: Pack, key: nat)
    ensures Count(q + [p], key) == Count(q, key) + Times(KeyOf(p) == key)
  {
    assert (q + [p])[..|q|] == q;
  }

  lemma SendBackKeepsCount(x: Peer, y: Peer, key: nat)
    requires x.handled !! y.handled && x.back.op in x.handled && x.back.idx < UINT32 && x.back.op != 0
    ensures key / UINT32 in y.handled && JustOnce(x, y, key) ==> JustOnce(SentBack(x), y, key)
    ensures key / UINT32 in x.handled && JustOnce(y, x, key) ==> JustOnce(y, SentBack(x), key)
  {
    KeyParts(x.back, x.back);
    assert key / UINT32 in y.handled ==> KeyOf(x.back) != key;
    hide SentBack, Count, TimesTaken, TimesRan, KeyOf;
    SentBackFields(x, key);
  }

  lemma SendBackKeeps(x: Peer, y: Peer)
    requires Good(x, y) && x.back.op != 0
    ensures Good(SentBack(x), y)
  {
    SendBackKeepsRecords(x, y);
    hide JustOnce, AllSent, TookWhatWasCalled, RanWhatWasReplied, Waiting, Numbered;
    forall key | key / UINT32 in y.handled ensures JustOnce(SentBack(x), y, key) {
      SendBackKeepsCount(x, y, key);
    }
    forall key | key / UINT32 in x.handled ensures JustOnce(y, SentBack(x), key) {
      SendBackKeepsCount(x, y, key);
    }
  }

  lemma ArrivedFields(x: Peer, y: Peer, key: nat)
    requires y.out != []
    ensures var (x', y') := Arrived(x, y);
            && Count(x'.queue, key) + Count(y'.out, key) == Count(x.queue, key) + Count(y.out, key)
            && x' == x.(queue := x'.queue) && y' == y.(out := y'.out)
  {
    CountFront(y.out, key);
    assert (x.queue + [y.out[0]])[..|x.queue|] == x.queue;
  }

  lemma ArriveKeepsCount(x: Peer, y: Peer, key: nat)
    requires y.out != []
    ensures JustOnce(x, y, key) ==> JustOnce(Arrived(x, y).0, Arrived(x, y).1, key)
    ensures JustOnce(y, x, key) ==> JustOnce(Arrived(x, y).1, Arrived(x, y).0, key)
  {
    hide Arrived, Count, TimesTaken, TimesRan, KeyOf;
    ArrivedFields(x, y, key);
  }

  lemma ArriveKeeps(x: Peer, y: Peer)
    requires Good(x, y) && y.out != []
    ensures Good(Arrived(x, y).0, Arrived(x, y).1)
  {
    var (x', y') := Arrived(x, y);
    assert Records(x', y') && Records(y', x') by {
      assert forall q | q in y.out[1..] :: q in y.out;
      assert y.out[0] in y.out;
    }
    hide JustOnce, Records;
    forall key | key / UINT32 in y.handled ensures JustOnce(x', y', key) {
      ArriveKeepsCount(x, y, key);
    }
    forall key | key / UINT32 in x.handled ensures JustOnce(y', x', key) {
      ArriveKeepsCount(x, y, key);
    }
  }

  lemma {:induction false} TakenIsLogged(took: seq<Took>, key: nat)
    requires TimesTaken(took, key) > 0
    ensures exists t | t in took :: t.key == key
  {
    var k := |took| - 1;
    if took[k].key != key {
      TakenIsLogged(took[..k], key);
      var t :| t in took[..k] && t.key == key;
      assert t in took;
    }
  }

  lemma {:induction false} RanIsCounted(ran: seq<Ran>, r: Ran)
    requires r in ran
    ensures TimesRan(ran, r.key) > 0
  {
    var k := |ran| - 1;
    if ran[k] != r {
      assert r in ran[..k];
      RanIsCounted(ran[..k], r);
    }
  }

  /** A callback that has run is the one registered for its call, and ran once, with the body that the other side gave
      as reply when it handled that very call, which it did once, with the body sent. No second reply will come. */
  ghost predicate RanForItsCall(x: Peer, y: Peer, r: Ran) {
    && r.key in x.called && r.key in x.registered && r.callback == x.registered[r.key] && TimesRan(x.ran, r.key) == 1
    && TimesTaken(y.took, r.key) == 1 && Took(r.key, x.called[r.key]) in y.took
    && r.key in y.replied && r.body == y.replied[r.key]
    && Count(y.out, r.key) + Count(x.queue, r.key) == 0
  }

  lemma Correlated(x: Peer, y: Peer, r: Ran)
    requires Good(x, y) && r in x.ran
    ensures RanForItsCall(x, y, r)
  {
    assert JustOnce(x, y, r.key);
    RanIsCounted(x.ran, r);
    TakenIsLogged(y.took, r.key);
  }

  /** A request handled is one that was made, is handled once, and is not replied to again once a reply has gone. */
  lemma HandledOnce(x: Peer, y: Peer, t: Took)
    requires Good(x, y) && t in y.took && t.key / UINT32 in y.handled
    ensures t.key in x.called && t.body == x.called[t.key] && TimesTaken(y.took, t.key) <= 1
    ensures t.key in y.replied ==> !(y.back.op != 0 && KeyOf(y.back) == t.key)
  {
    assert JustOnce(x, y, t.key);
  }

  /** Every call has been handled just once, and has been replied to unless its handler left the reply empty; and every
      callback registered with its call has run just once, if there was a reply, and otherwise still waits. */
  ghost predicate AllAnswered(x: Peer, y: Peer) {
    forall key {:trigger key in x.called} | key in x.called ::
      && TimesTaken(y.took, key) == 1
      && (key !in y.replied <==> key in y.silent) && (key in y.silent ==> |y.silent[key]| % UINT16 == 0)
      && (key in x.registered ==>
            && TimesRan(x.ran, key) == Times(key in y.replied) && (key in x.response <==> key !in y.replied))
  }

  /** So it is when nothing is on its way or queued and no handler is running. */
  lemma Quiescent(x: Peer, y: Peer)
    requires Good(x, y) && x.out == y.out == [] && x.queue == y.queue == [] && y.back.op == 0
    ensures AllAnswered(x, y)
  {
    forall key | key in x.called
      ensures TimesTaken(y.took, key) == 1 && (key !in y.replied <==> key in y.silent)
      ensures key in x.registered ==>
                TimesRan(x.ran, key) == Times(key in y.replied) && (key in x.response <==> key !in y.replied)
    {
      assert JustOnce(x, y, key);
    }
  }

  /** Which side is named first does not matter. */
  lemma Symmetric(x: Peer, y: Peer)
    requires Good(x, y)
    ensures Good(y, x)
  {
  }

  // ----- the two processes -----

  /** A process's queue, with the connection to the other process. */
  class RpcQueue {
    const rpcfunc: seq<bool>
    var response: map<nat, nat>
    var queue: seq<Pack>
    var sendBuffer: Pack
    var backBuffer: Pack
    var autoReqIdx: nat
    // sent and not arrived
    var out: seq<Pack>
    // in a handler
    var busy: bool
    ghost var called: map<nat, seq<byte>>
    ghost var registered: map<nat, nat>
    ghost var ran: seq<Ran>
    ghost var took: seq<Took>
    ghost var replied: map<nat, seq<byte>>
    ghost var silent: map<nat, seq<byte>>

    ghost function Table(): set<nat> {
      set op | 0 <= op < |rpcfunc| && rpcfunc[op]
    }

    ghost function View(): Peer
      reads this
    {
      Peer(Table(), response, queue, backBuffer, autoReqIdx, out, called, registered, ran, took, replied,
           silent)
    }

    /** Between two messages nothing is left in the buffers. */
    ghost predicate Rested()
      reads this`busy, this`backBuffer, this`sendBuffer
    {
      (busy || backBuffer.op == 0) && sendBuffer.op == 0
    }

    constructor (rpcfunc: seq<bool>)
      ensures this.rpcfunc == rpcfunc && Rested() && !busy
      ensures View() == Peer(Table(), map[], [], CLEARED, 0, [], map[], map[], [], [], map[], map[])
    {
      this.rpcfunc := rpcfunc;
      response, queue, sendBuffer, backBuffer, autoReqIdx, out := map[], [], CLEARED, CLEARED, 0, [];
      busy := false;
      called, registered, ran, took, replied, silent := map[], map[], [], [], map[], map[];
    }

    method Insert(p: Pack)
      modifies this`queue
      ensures View() == old(View()).(queue := old(queue) + [p])
    {
      queue := queue + [p];
    }

    /** CallRpc, with the callback for the reply if one is wanted. */
    method CallRpc(rid: nat, body: seq<byte>, recvFun: Option<nat>) returns (reqKey: nat)
      requires Rested() && (rid < |rpcfunc| ==> !rpcfunc[rid])
      modifies this`sendBuffer, this`autoReqIdx, this`out, this`response, this`called, this`registered
      ensures Rested() && reqKey == KeyOf(NextRequest(old(View()), rid, body))
      ensures var sent := Called(old(View()), rid, body);
              View() == if recvFun.Some? then Registered(sent, reqKey, recvFun.value) else sent
      ensures autoReqIdx == (old(autoReqIdx) + 1) % UINT32 && reqKey == rid * UINT32 + autoReqIdx
      ensures out == old(out) + [Pack(rid, autoReqIdx, body)]
      ensures response == if recvFun.Some? then old(response)[reqKey := recvFun.value] else old(response)
    {
      sendBuffer := sendBuffer.(op := rid);
      autoReqIdx := (autoReqIdx + 1) % UINT32;
      sendBuffer := sendBuffer.(idx := autoReqIdx);
      reqKey := KeyOf(sendBuffer);
      sendBuffer := sendBuffer.(body := body);
      out := out + [sendBuffer];
      sendBuffer := CLEARED;
      called := called[reqKey := body];
      if recvFun.Some? {
        RegistResponse(reqKey, recvFun.value);
      }
    }

    method RegistResponse(reqKey: nat, func: nat)
      modifies this`response, this`registered
      ensures View() == Registered(old(View()), reqKey, func) && response == old(response)[reqKey := func]
    {
      response := response[reqKey := func];
      registered := registered[reqKey := func];
    }

    /** _Handle, up to and not including the call of the handler. */
    method Begin()
      requires queue != [] && !busy && Rested()
      modifies this
      ensures Rested()
      ensures View() == if old(queue)[0].op < |rpcfunc| then Handled(old(View()))
                        else old(View()).(queue := old(queue)[1..])
      ensures busy <==> old(queue)[0].op < |rpcfunc| && rpcfunc[old(queue)[0].op]
      ensures var p := old(queue)[0]; var waits := p.op < |rpcfunc| && !busy && KeyOf(p) in old(response);
              && queue == old(queue)[1..] && out == old(out)
              && backBuffer == (if busy then Pack(p.op, p.idx, []) else old(backBuffer))
              && took == (if busy then old(took) + [Took(KeyOf(p), p.body)] else old(took))
              && ran == (if waits then old(ran) + [Ran(KeyOf(p), old(response)[KeyOf(p)], p.body)] else old(ran))
              && response == if waits then old(response) - {KeyOf(p)} else old(response)
    {
      var buf := queue[0];
      queue := queue[1..];
      if buf.op >= |rpcfunc| {
        return;
      }
      if rpcfunc[buf.op] {
        backBuffer := Pack(buf.op, buf.idx, []);
        busy := true;
        took := took + [Took(KeyOf(buf), buf.body)];
      } else {
        if KeyOf(buf) in response {
          ran := ran + [Ran(KeyOf(buf), response[KeyOf(buf)], buf.body)];
          response := response - {KeyOf(buf)};
        }
      }
    }

    /** The handler writes some of its reply. */
    method Write(data: seq<byte>)
      modifies this`backBuffer
      ensures View() == Written(old(View()), data)
      ensures backBuffer == old(backBuffer).(body := old(backBuffer).body + data)
    {
      backBuffer := backBuffer.(body := backBuffer.body + data);
    }

    method SendBackBuffer()
      requires backBuffer.op != 0
      modifies this`backBuffer, this`out, this`replied, this`silent
      ensures View() == SentBack(old(View())) && backBuffer == CLEARED
      ensures var p := old(backBuffer);
              && (0 < |p.body| < UINT16 ==> out == old(out) + [p] && replied == old(replied)[KeyOf(p) := p.body])
              && (p.body == [] ==> out == old(out) && replied == old(replied))
    {
      var size := |backBuffer.body| % UINT16;
      if size != 0 {
        out := out + [backBuffer];
        replied := replied[KeyOf(backBuffer) := backBuffer.body];
      } else {
        silent := silent[KeyOf(backBuffer) := backBuffer.body];
      }
      backBuffer := CLEARED;
    }

    /** The handler has returned: the reply goes, unless it went early. */
    method End()
      requires busy && sendBuffer.op == 0
      modifies this`busy, this`backBuffer, this`out, this`replied, this`silent
      ensures Rested() && !busy && View() == if old(backBuffer).op != 0 then SentBack(old(View())) else old(View())
      ensures var p := old(backBuffer);
              && (p.op != 0 ==> backBuffer == CLEARED)
              && (p.op != 0 && 0 < |p.body| < UINT16 ==> out == old(out) + [p])
              && (p.op == 0 || p.body == [] ==> out == old(out) && replied == old(replied))
    {
      if backBuffer.op != 0 {
        SendBackBuffer();
      }
      busy := false;
    }
  }

  class Net {
    const a: RpcQueue
    const b: RpcQueue

    ghost predicate Valid()
      reads this, a, b
    {
      a != b && |a.rpcfunc| == |b.rpcfunc| && Good(a.View(), b.View()) && a.Rested() && b.Rested()
    }

    /** Two processes built with the same list of opcodes, none of them handled by both, nor 0 by either. */
    constructor (aFuncs: seq<bool>, bFuncs: seq<bool>)
      requires 0 < |aFuncs| == |bFuncs| && !aFuncs[0] && !bFuncs[0]
      requires forall op | 0 <= op < |aFuncs| :: !(aFuncs[op] && bFuncs[op])
      ensures Valid() && fresh(a) && fresh(b) && a.rpcfunc == aFuncs && b.rpcfunc == bFuncs
    {
      a := new RpcQueue(aFuncs);
      b := new RpcQueue(bFuncs);
    }

    /** In every reachable state in which nothing is left to do, all calls of both sides have been answered. */
    lemma NothingUnanswered()
      requires Valid() && !a.busy && !b.busy && a.queue == b.queue == [] && a.out == b.out == []
      ensures AllAnswered(a.View(), b.View()) && AllAnswered(b.View(), a.View())
    {
      Symmetric(a.View(), b.View());
      hide Good, AllAnswered;
      Quiescent(a.View(), b.View());
      Quiescent(b.View(), a.View());
    }

    /** x calls; the other side implements the call. */
    method Call(x: RpcQueue, y: RpcQueue, rid: nat, body: seq<byte>, recvFun: Option<nat>)
      requires Valid() && Sides(x, y)
      requires rid < |y.rpcfunc| && y.rpcfunc[rid] && x.autoReqIdx + 1 < UINT32
      modifies x
      ensures Valid() && x.autoReqIdx == old(x.autoReqIdx) + 1
      ensures var sent := Called(old(x.View()), rid, body); var key := KeyOf(NextRequest(old(x.View()), rid, body));
              x.View() == if recvFun.Some? then Registered(sent, key, recvFun.value) else sent
    {
      hide Good, Records, Counts;
      Symmetric(a.View(), b.View());
      ghost var was := x.View();
      CallIsNew(x.View(), y.View(), rid, body);
      CallKeeps(x.View(), y.View(), rid, body);
      var key := x.CallRpc(rid, body, recvFun);
      if recvFun.Some? {
        RegisterKeeps(Called(was, rid, body), y.View(), key, recvFun.value);
      }
      Symmetric(x.View(), y.View());
    }

    ghost predicate Sides(x: RpcQueue, y: RpcQueue) {
      (x == a && y == b) || (x == b && y == a)
    }

    /** The main loop takes a message off the queue. */
    method Begin(x: RpcQueue, y: RpcQueue)
      requires Valid() && Sides(x, y) && x.queue != [] && !x.busy
      modifies x
      ensures Valid() && x.View() == Handled(old(x.View()))
    {
      hide Good, Records, Counts;
      Symmetric(a.View(), b.View());
      QueuedIsKnown(x.View(), y.View());
      HandleKeeps(x.View(), y.View());
      x.Begin();
      Symmetric(x.View(), y.View());
    }

    method Write(x: RpcQueue, y: RpcQueue, data: seq<byte>)
      requires Valid() && Sides(x, y) && x.busy
      modifies x
      ensures Valid() && x.View() == Written(old(x.View()), data)
    {
      hide Good, Records, Counts;
      Symmetric(a.View(), b.View());
      WriteKeeps(x.View(), y.View(), data);
      x.Write(data);
      Symmetric(x.View(), y.View());
    }

    /** A handler replies early. */
    method SendBack(x: RpcQueue, y: RpcQueue)
      requires Valid() && Sides(x, y) && x.busy && x.backBuffer.op != 0
      modifies x
      ensures Valid() && x.View() == SentBack(old(x.View()))
    {
      hide Good, Records, Counts;
      Symmetric(a.View(), b.View());
      SendBackKeeps(x.View(), y.View());
      x.SendBackBuffer();
      Symmetric(x.View(), y.View());
    }

    method End(x: RpcQueue, y: RpcQueue)
      requires Valid() && Sides(x, y) && x.busy
      modifies x
      ensures Valid() && !x.busy
      ensures x.View() == if old(x.backBuffer).op != 0 then SentBack(old(x.View())) else old(x.View())
    {
      hide Good, Records, Counts;
      Symmetric(a.View(), b.View());
      if x.backBuffer.op != 0 {
        SendBackKeeps(x.View(), y.View());
      }
      x.End();
      Symmetric(x.View(), y.View());
    }

    /** x's I/O thread. */
    method Arrive(x: RpcQueue, y: RpcQueue)
      requires Valid() && Sides(x, y) && y.out != []
      modifies x, y
      ensures Valid() && (x.View(), y.View()) == Arrived(old(x.View()), old(y.View()))
    {
      hide Good, Records, Counts;
      Symmetric(a.View(), b.View());
      ArriveKeeps(x.View(), y.View());
      x.Insert(y.out[0]);
      y.out := y.out[1..];
      Symmetric(x.View(), y.View());
    }

    /** Any step of either side, while there are numbers for calls; callbacks and what handlers do besides replying are
        later calls. */
    method AnyStep(rid: nat, data: seq<byte>, recvFun: Option<nat>)
      requires Valid()
      modifies a, b
      ensures Valid()
    {
      var first: bool := *;
      var x, y := if first then a else b, if first then b else a;
      if {
        case true =>
        case rid < |y.rpcfunc| && y.rpcfunc[rid] && x.autoReqIdx + 1 < UINT32 => Call(x, y, rid, data, recvFun);
        case x.queue != [] && !x.busy => Begin(x, y);
        case x.busy => Write(x, y, data);
        case x.busy && x.backBuffer.op != 0 => SendBack(x, y);
        case x.busy => End(x, y);
        case y.out != [] => Arrive(x, y);
      }
    }

    /** Any run: whatever the order of steps, and whatever each of them calls, writes, replies or registers, every
        callback that has run is correlated with its call. */
    method AnyRun(moves: seq<(nat, seq<byte>, Option<nat>)>)
      requires Valid()
      modifies a, b
      ensures Valid()
      ensures forall r | r in a.ran :: RanForItsCall(a.View(), b.View(), r)
      ensures forall r | r in b.ran :: RanForItsCall(b.View(), a.View(), r)
    {
      for i := 0 to |moves|
        invariant Valid()
      {
        AnyStep(moves[i].0, moves[i].1, moves[i].2);
      }
      Symmetric(a.View(), b.View());
      forall r | r in a.ran ensures RanForItsCall(a.View(), b.View(), r) {
        Correlated(a.View(), b.View(), r);
      }
      forall r | r in b.ran ensures RanForItsCall(b.View(), a.View(), r) {
        Correlated(b.View(), a.View(), r);
      }
    }
  }
}
