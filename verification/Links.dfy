/** The two ends of a connection, ServLink and ClientLink: who may post a send, what a partial completion leaves, and
    how frames are taken off the receive buffer. The bytes of a posted send are those readable when it was posted. */
module Links {
  import opened Common
  import opened Framing
  import opened NetBuffer

  const IN_BUFFER_SIZE: nat := 4096

  // ----- what sending and receiving keep -----

  /** accepted: messages taken by SendMsg. wire: bytes the network has taken. posted: the send that is outstanding. */
  ghost predicate SendOk(accepted: seq<Msg>, wire: seq<byte>, pending: seq<byte>, posted: Option<seq<byte>>,
                         canWrite: bool) {
    && Stream(accepted) == wire + pending
    && (posted.Some? ==> !canWrite && posted.value <= pending)
  }

  /** received: bytes the network has delivered. handled: messages passed on. */
  ghost predicate RecvOk(received: seq<byte>, handled: seq<Msg>, pending: seq<byte>) {
    received == Stream(handled) + pending
  }

  lemma AcceptOne(accepted: seq<Msg>, wire: seq<byte>, pending: seq<byte>, posted: Option<seq<byte>>, canWrite: bool,
                  m: Msg)
    requires SendOk(accepted, wire, pending, posted, canWrite)
    ensures SendOk(accepted + [m], wire, pending + Frame(m), posted, canWrite)
  {
    StreamOneMore(accepted, m);
    assert wire + (pending + Frame(m)) == wire + pending + Frame(m);
  }

  lemma FrameBehind(pending: seq<byte>, m: Msg)
    ensures pending + Head(|m|) + m == pending + Frame(m)
  {
  }

  /** A completion of k bytes: they are on the wire and off the buffer. */
  lemma CompleteSome(accepted: seq<Msg>, wire: seq<byte>, pending: seq<byte>, posted: Option<seq<byte>>,
                     canWrite: bool, k: nat)
    requires SendOk(accepted, wire, pending, posted, canWrite) && posted.Some? && k <= |posted.value|
    ensures k <= |pending| && SendOk(accepted, wire + posted.value[..k], pending[k..], None, true)
  {
  }

  /** All that is pending may be posted, or fail to be, when nothing is outstanding. */
  lemma PostingKeeps(accepted: seq<Msg>, wire: seq<byte>, pending: seq<byte>, posted: Option<seq<byte>>)
    requires SendOk(accepted, wire, pending, posted, true)
    ensures posted == None
    ensures SendOk(accepted, wire, pending, Some(pending), false) && SendOk(accepted, wire, pending, None, false)
  {
  }

  lemma HandleOne(received: seq<byte>, handled: seq<Msg>, pending: seq<byte>)
    requires RecvOk(received, handled, pending) && HasFrame(pending)
    ensures RecvOk(received, handled + [FirstMsg(pending)], pending[HeadValue(pending) + 2..])
  {
    var m, rest := FirstMsg(pending), pending[HeadValue(pending) + 2..];
    StreamOneMore(handled, m);
    FrameOfFirst(pending);
    assert Stream(handled) + pending == Stream(handled) + Frame(m) + rest;
  }

  lemma FrameOfFirst(pending: seq<byte>)
    requires HasFrame(pending)
    ensures pending == Frame(FirstMsg(pending)) + pending[HeadValue(pending) + 2..]
  {
  }

  /** The messages handled were all shorter than limit, and none before the last has made the link invalid. */
  ghost predicate Judged(handled: seq<Msg>, verdicts: seq<bool>, limit: nat) {
    && |verdicts| == |handled|
    && (forall i {:trigger handled[i]} | 0 <= i < |handled| :: |handled[i]| < limit)
    && (forall i {:trigger verdicts[i]} | 0 <= i < |verdicts| - 1 :: !verdicts[i])
  }

  /** The last one has, or the head behind it is too long. */
  ghost predicate Rejected(received: seq<byte>, handled: seq<Msg>, verdicts: seq<bool>, limit: nat)
    requires Stream(handled) <= received
  {
    true in verdicts || TooLong(received[|Stream(handled)|..], limit)
  }

  lemma NotRejected(received: seq<byte>, handled: seq<Msg>, verdicts: seq<bool>, limit: nat)
    requires Stream(handled) <= received && !Rejected(received, handled, verdicts, limit)
    ensures true !in verdicts
  {
  }

  // ----- the server's end -----

  class ServLink {
    const sendBuf: Buffer
    const recvBuf: Buffer
    var bCanWrite: bool
    var bInvalid: bool
    const nMaxPackage: nat
    ghost var accepted: seq<Msg>
    ghost var handled: seq<Msg>
    var wire: seq<byte>             // these three are the network's
    var posted: Option<seq<byte>>
    var received: seq<byte>
    // whether handling each message, or the limit on packets, has made the link invalid; posts that failed; calls of
    // SendMsg with a message that is too long
    ghost var verdicts: seq<bool>
    ghost var failures: nat
    ghost var refusals: nat

    ghost predicate Valid()
      reads this, sendBuf, recvBuf, sendBuf.buffer, recvBuf.buffer
    {
      && sendBuf != recvBuf && sendBuf.buffer != recvBuf.buffer && sendBuf.Valid() && recvBuf.Valid()
      && SendOk(accepted, wire, sendBuf.Contents(), posted, bCanWrite)
      && Stream(handled) <= received
      && Judged(handled, verdicts, nMaxPackage)
      && (bInvalid <==> failures > 0 || refusals > 0 || Rejected(received, handled, verdicts, nMaxPackage))
      && (!bInvalid ==>
            && RecvOk(received, handled, recvBuf.Contents())
            && !HasFrame(recvBuf.Contents())
            && recvBuf.Writable() >= IN_BUFFER_SIZE)
    }

    /** A connection just accepted. */
    constructor (nMaxPackage: nat)
      ensures Valid() && bCanWrite && !bInvalid && accepted == handled == [] && wire == received == []
      ensures fresh(sendBuf) && fresh(recvBuf) && fresh(sendBuf.buffer) && fresh(recvBuf.buffer)
      ensures this.nMaxPackage == nMaxPackage && verdicts == [] && failures == refusals == 0
    {
      sendBuf := new Buffer(IN_BUFFER_SIZE);
      recvBuf := new Buffer(IN_BUFFER_SIZE);
      bCanWrite, bInvalid := true, false;
      this.nMaxPackage := nMaxPackage;
      verdicts, failures, refusals := [], 0, 0;
      accepted, wire, posted, received, handled := [], [], None, [], [];
    }

    /** WSASend of everything readable; ioError is whether it fails at once. Nothing may be outstanding. */
    method PostSend(ioError: bool) returns (ok: bool)
      requires sendBuf.Valid() && posted == None
      modifies this`bCanWrite, this`bInvalid, this`posted, this`failures
      ensures !bCanWrite && posted == (if ioError then None else Some(sendBuf.Contents()))
      ensures ok == !ioError && bInvalid == (old(bInvalid) || ioError)
      ensures failures == old(failures) + if ioError then 1 else 0
    {
      bCanWrite := false;
      if ioError {
        bInvalid, failures := true, failures + 1;
        return false;
      }
      posted := Some(sendBuf.buffer[sendBuf.rpos..sendBuf.wpos]);
      return true;
    }

    method AppendFrame(msg: Msg)
      requires Valid()
      modifies this`accepted, sendBuf, sendBuf.buffer
      ensures Valid() && (sendBuf.buffer == old(sendBuf.buffer) || fresh(sendBuf.buffer))
      ensures accepted == old(accepted) + [msg] && sendBuf.Contents() == old(sendBuf.Contents()) + Frame(msg)
    {
      hide SendOk, RecvOk, HasFrame, HeadValue, Stream, Frame, Head;
      ghost var was := sendBuf.Contents();
      AcceptOne(accepted, wire, was, posted, bCanWrite, msg);
      sendBuf.Append(Head(|msg|));
      sendBuf.Append(msg);
      FrameBehind(was, msg);
      accepted := accepted + [msg];
    }

    /** A message is refused once the link is invalid or when it is too long, which makes the link invalid. Otherwise
        its frame goes behind everything pending; a send is posted only when none is outstanding and a quarter of the
        buffer is in use. */
    method SendMsg(msg: Msg, ioError: bool) returns (ok: bool)
      requires Valid()
      modifies this`accepted, this`bInvalid, this`bCanWrite, this`posted, this`failures, this`refusals
      modifies sendBuf, sendBuf.buffer
      ensures Valid() && (sendBuf.buffer == old(sendBuf.buffer) || fresh(sendBuf.buffer))
      ensures var taken := !old(bInvalid) && |msg| < IN_BUFFER_SIZE;
              var post := taken && sendBuf.Readable() >= sendBuf.buffer.Length / 4 && old(bCanWrite) && |msg| > 0;
              && accepted == (if taken then old(accepted) + [msg] else old(accepted))
              && sendBuf.Contents() == old(sendBuf.Contents()) + (if taken then Frame(msg) else [])
              && posted == (if post && !ioError then Some(sendBuf.Contents()) else old(posted))
              && bCanWrite == (old(bCanWrite) && !post)
              && bInvalid == (old(bInvalid) || !taken || (post && ioError))
              && ok == (taken && !(post && ioError))
              && failures == old(failures) + (if post && ioError then 1 else 0)
              && refusals == old(refusals) + (if old(bInvalid) || taken then 0 else 1)
    {
      hide SendOk, RecvOk, HasFrame, Stream, Frame, Judged, Rejected, Buffer.Contents;
      if bInvalid { return false; }
      if |msg| >= IN_BUFFER_SIZE {
        bInvalid, refusals := true, refusals + 1;
        return false;
      }
      AppendFrame(msg);
      if sendBuf.Readable() < sendBuf.buffer.Length / 4 { return true; }
      if bCanWrite && |msg| > 0 {
        PostingKeeps(accepted, wire, sendBuf.Contents(), posted);
        ok := PostSend(ioError);
        return;
      }
      return true;
    }

    /** The sending thread, from time to time. */
    method ServerRunSendIO(ioError: bool)
      requires Valid()
      modifies this`bCanWrite, this`bInvalid, this`posted, this`failures
      ensures Valid()
      ensures var post := old(bCanWrite) && sendBuf.Readable() > 0;
              && posted == (if post && !ioError then Some(sendBuf.Contents()) else old(posted))
              && bCanWrite == (old(bCanWrite) && !post) && bInvalid == (old(bInvalid) || (post && ioError))
              && failures == old(failures) + if post && ioError then 1 else 0
    {
      hide SendOk, RecvOk, HasFrame, Stream, Judged, Rejected;
      if bCanWrite && sendBuf.Readable() > 0 {
        PostingKeeps(accepted, wire, sendBuf.Contents(), posted);
        var ok := PostSend(ioError);
      }
    }

    /** The outstanding send is over, with the first k of its bytes sent. What is left is posted again at once. */
    method OnSendDoneIO(k: nat, ioError: bool)
      requires Valid() && posted.Some? && k <= |posted.value|
      modifies this`bCanWrite, this`bInvalid, this`posted, this`wire, this`failures, sendBuf`rpos, sendBuf`wpos
      ensures Valid() && wire == old(wire) + old(posted).value[..k] && k <= |old(sendBuf.Contents())|
      ensures sendBuf.Contents() == old(sendBuf.Contents())[k..]
      ensures posted == (if sendBuf.Readable() > 0 && !ioError then Some(sendBuf.Contents()) else None)
      ensures bCanWrite == (sendBuf.Readable() == 0)
      ensures bInvalid == (old(bInvalid) || (sendBuf.Readable() > 0 && ioError))
      ensures failures == old(failures) + if sendBuf.Readable() > 0 && ioError then 1 else 0
    {
      hide SendOk, RecvOk, HasFrame, Stream, Judged, Rejected, Buffer.Contents;
      Completed(k);
      if sendBuf.Readable() > 0 {
        PostingKeeps(accepted, wire, sendBuf.Contents(), None);
        var ok := PostSend(ioError);
      }
    }

    /** The first k bytes of the outstanding send are on the wire, the rest is pending. */
    method Completed(k: nat)
      requires sendBuf.Valid() && SendOk(accepted, wire, sendBuf.Contents(), posted, bCanWrite)
      requires posted.Some? && k <= |posted.value|
      modifies this`bCanWrite, this`posted, this`wire, sendBuf`rpos, sendBuf`wpos
      ensures sendBuf.Valid() && posted == None && bCanWrite && k <= |old(sendBuf.Contents())|
      ensures wire == old(wire) + old(posted).value[..k] && sendBuf.Contents() == old(sendBuf.Contents())[k..]
      ensures SendOk(accepted, wire, sendBuf.Contents(), None, true)
    {
      hide SendOk, Buffer.Contents;
      CompleteSome(accepted, wire, sendBuf.Contents(), posted, bCanWrite, k);
      bCanWrite := true;
      sendBuf.ReaderMove(k);
      wire := wire + posted.value[..k];
      posted := None;
    }

    /** HandleClientMessage and the limit on packets, either of which may make the link invalid. */
    method RecvMsg(msg: Msg)
      modifies this`bInvalid, this`handled, this`verdicts
      ensures old(bInvalid) ==> bInvalid && handled == old(handled) && verdicts == old(verdicts)
      ensures !old(bInvalid) ==> handled == old(handled) + [msg] && verdicts == old(verdicts) + [bInvalid]
    {
      if bInvalid { return; }
      handled := handled + [msg];
      var kick: bool := *;
      if kick { bInvalid := true; }
      verdicts := verdicts + [kick];
    }

    /** One whole frame is taken off the receive buffer. */
    method TakeFrame()
      requires recvBuf.Valid() && HasFrame(recvBuf.Contents())
      requires Stream(handled) <= received
      requires !bInvalid ==> RecvOk(received, handled, recvBuf.Contents())
      modifies this`bInvalid, this`handled, this`verdicts, recvBuf`rpos, recvBuf`wpos
      ensures recvBuf.Valid() && Stream(handled) <= received
      ensures !bInvalid ==> RecvOk(received, handled, recvBuf.Contents())
      ensures recvBuf.Readable() < old(recvBuf.Readable())
      ensures old(bInvalid) ==> bInvalid && handled == old(handled) && verdicts == old(verdicts)
      ensures !old(bInvalid) ==> handled == old(handled) + [FirstMsg(old(recvBuf.Contents()))]
      ensures !old(bInvalid) ==> verdicts == old(verdicts) + [bInvalid]
    {
      ghost var was := recvBuf.Contents();
      ghost var rest := was[HeadValue(was) + 2..];
      assert RecvOk(received, handled, was) ==> RecvOk(received, handled + [FirstMsg(was)], rest) by {
        if RecvOk(received, handled, was) { HandleOne(received, handled, was); }
      }
      var kMsgSize := HeadValue(recvBuf.buffer[recvBuf.rpos..recvBuf.wpos]);
      var kPackSize := kMsgSize + HEAD;
      var msg := recvBuf.buffer[recvBuf.rpos..recvBuf.wpos][HEAD..kPackSize];
      RecvMsg(msg);
      recvBuf.ReaderMove(kPackSize);
      assert recvBuf.Contents() == was[kPackSize..];
    }

    /** The outstanding receive is over with data: the whole frames are handled up to the first message that makes the
        link invalid, or the first head that gives nMaxPackage or more, which does so, too. */
    method OnReadDoneIO(data: seq<byte>)
      requires Valid() && !bInvalid && |data| <= recvBuf.Writable()
      modifies this`bInvalid, this`handled, this`verdicts, this`received, recvBuf, recvBuf.buffer
      ensures Valid() && (recvBuf.buffer == old(recvBuf.buffer) || fresh(recvBuf.buffer))
      ensures received == old(received) + data && old(handled) <= handled && old(verdicts) <= verdicts
      ensures bInvalid <==> Rejected(received, handled, verdicts, nMaxPackage)
    {
      hide SendOk, HasFrame, Stream, Rejected, Judged;
      NotRejected(received, handled, verdicts, nMaxPackage);
      TakeIn(data);
      HandleFrames();
      recvBuf.MakeSpace(IN_BUFFER_SIZE);
    }

    method TakeIn(data: seq<byte>)
      requires Valid() && !bInvalid && |data| <= recvBuf.Writable()
      modifies this`received, recvBuf, recvBuf.buffer
      ensures recvBuf.Valid() && (recvBuf.buffer == old(recvBuf.buffer) || fresh(recvBuf.buffer))
      ensures received == old(received) + data && RecvOk(received, handled, recvBuf.Contents())
    {
      ghost var was := recvBuf.Contents();
      recvBuf.CopyIn(data);
      Buffer.FirstBehind(recvBuf.buffer[..], recvBuf.wpos, |data|);
      recvBuf.WriterMove(|data|);
      assert recvBuf.Contents() == was + data;
      received := received + data;
      assert received == Stream(handled) + (was + data);
    }

    /** Every whole frame is handled, until one is too long or the link becomes invalid. */
    method HandleFrames()
      requires recvBuf.Valid() && Stream(handled) <= received && RecvOk(received, handled, recvBuf.Contents())
      requires !bInvalid && Judged(handled, verdicts, nMaxPackage) && true !in verdicts
      modifies this`bInvalid, this`handled, this`verdicts, recvBuf`rpos, recvBuf`wpos
      ensures recvBuf.Valid() && Stream(handled) <= received && old(handled) <= handled && old(verdicts) <= verdicts
      ensures !bInvalid ==> RecvOk(received, handled, recvBuf.Contents()) && !HasFrame(recvBuf.Contents())
      ensures Judged(handled, verdicts, nMaxPackage)
      ensures bInvalid <==> Rejected(received, handled, verdicts, nMaxPackage)
    {
      while recvBuf.Readable() >= HEAD
        invariant recvBuf.Valid() && Judged(handled, verdicts, nMaxPackage)
        invariant Stream(handled) <= received && old(handled) <= handled && old(verdicts) <= verdicts
        invariant !bInvalid ==> RecvOk(received, handled, recvBuf.Contents()) && true !in verdicts
        invariant bInvalid ==> Rejected(received, handled, verdicts, nMaxPackage)
        decreases recvBuf.Readable()
      {
        var kMsgSize := HeadValue(recvBuf.buffer[recvBuf.rpos..recvBuf.wpos]);
        if kMsgSize >= nMaxPackage {
          recvBuf.Clear();
          bInvalid := true;
        }
        if kMsgSize + HEAD > recvBuf.Readable() { break; }
        TakeFrame();
      }
    }
  }

  // ----- the client's end -----

  /** While connected: CloseLink ends a connection and throws both buffers away. */
  class ClientLink {
    const sendBuf: Buffer
    const recvBuf: Buffer
    var bCanWrite: bool
    ghost var accepted: seq<Msg>
    ghost var handled: seq<Msg>
    var wire: seq<byte>             // these three are the network's
    var posted: Option<seq<byte>>
    var received: seq<byte>

    ghost predicate Valid()
      reads this, sendBuf, recvBuf, sendBuf.buffer, recvBuf.buffer
    {
      && sendBuf != recvBuf && sendBuf.buffer != recvBuf.buffer && sendBuf.Valid() && recvBuf.Valid()
      && SendOk(accepted, wire, sendBuf.Contents(), posted, bCanWrite)
      && RecvOk(received, handled, recvBuf.Contents())
      && !HasFrame(recvBuf.Contents())
      && recvBuf.Writable() >= 1
    }

    /** A connection just made. */
    constructor ()
      ensures Valid() && bCanWrite && accepted == handled == [] && wire == received == []
      ensures fresh(sendBuf) && fresh(recvBuf) && fresh(sendBuf.buffer) && fresh(recvBuf.buffer)
    {
      sendBuf := new Buffer(IN_BUFFER_SIZE);
      recvBuf := new Buffer(IN_BUFFER_SIZE);
      bCanWrite := true;
      accepted, wire, posted, received, handled := [], [], None, [], [];
    }

    method PostSend(ioError: bool)
      requires sendBuf.Valid() && posted == None
      modifies this`bCanWrite, this`posted
      ensures !bCanWrite && posted == (if ioError then None else Some(sendBuf.Contents()))
    {
      bCanWrite := false;
      if !ioError {
        posted := Some(sendBuf.buffer[sendBuf.rpos..sendBuf.wpos]);
      }
    }

    method SendMsg(msg: Msg, ioError: bool)
      requires Valid()
      modifies this`accepted, this`bCanWrite, this`posted, sendBuf, sendBuf.buffer
      ensures Valid() && (sendBuf.buffer == old(sendBuf.buffer) || fresh(sendBuf.buffer))
      ensures accepted == old(accepted) + [msg] && sendBuf.Contents() == old(sendBuf.Contents()) + Frame(msg)
      ensures var post := old(bCanWrite) && |msg| > 0;
              && posted == (if post && !ioError then Some(sendBuf.Contents()) else old(posted))
              && bCanWrite == (old(bCanWrite) && !post)
    {
      hide SendOk, RecvOk, HasFrame, Stream, Frame;
      AppendFrame(msg);
      if bCanWrite && |msg| > 0 {
        PostingKeeps(accepted, wire, sendBuf.Contents(), posted);
        PostSend(ioError);
      }
    }

    method AppendFrame(msg: Msg)
      requires Valid()
      modifies this`accepted, sendBuf, sendBuf.buffer
      ensures Valid() && (sendBuf.buffer == old(sendBuf.buffer) || fresh(sendBuf.buffer))
      ensures accepted == old(accepted) + [msg] && sendBuf.Contents() == old(sendBuf.Contents()) + Frame(msg)
    {
      hide SendOk, RecvOk, HasFrame, HeadValue, Stream, Frame, Head;
      ghost var was := sendBuf.Contents();
      AcceptOne(accepted, wire, was, posted, bCanWrite, msg);
      sendBuf.Append(Head(|msg|));
      sendBuf.Append(msg);
      FrameBehind(was, msg);
      accepted := accepted + [msg];
    }

    /** The outstanding send is over, with the first k of its bytes sent. What is left is posted again at once. */
    method OnSendDoneIO(k: nat, ioError: bool)
      requires Valid() && posted.Some? && k <= |posted.value|
      modifies this`bCanWrite, this`posted, this`wire, sendBuf`rpos, sendBuf`wpos
      ensures Valid() && wire == old(wire) + old(posted).value[..k] && k <= |old(sendBuf.Contents())|
      ensures sendBuf.Contents() == old(sendBuf.Contents())[k..]
      ensures posted == (if sendBuf.Readable() > 0 && !ioError then Some(sendBuf.Contents()) else None)
      ensures bCanWrite == (sendBuf.Readable() == 0)
    {
      hide SendOk, RecvOk, HasFrame, Stream, Judged, Rejected, Buffer.Contents;
      Completed(k);
      if sendBuf.Readable() > 0 {
        PostingKeeps(accepted, wire, sendBuf.Contents(), None);
        PostSend(ioError);
      }
    }

    /** The first k bytes of the outstanding send are on the wire, the rest is pending. */
    method Completed(k: nat)
      requires sendBuf.Valid() && SendOk(accepted, wire, sendBuf.Contents(), posted, bCanWrite)
      requires posted.Some? && k <= |posted.value|
      modifies this`bCanWrite, this`posted, this`wire, sendBuf`rpos, sendBuf`wpos
      ensures sendBuf.Valid() && posted == None && bCanWrite && k <= |old(sendBuf.Contents())|
      ensures wire == old(wire) + old(posted).value[..k] && sendBuf.Contents() == old(sendBuf.Contents())[k..]
      ensures SendOk(accepted, wire, sendBuf.Contents(), None, true)
    {
      hide SendOk, Buffer.Contents;
      CompleteSome(accepted, wire, sendBuf.Contents(), posted, bCanWrite, k);
      bCanWrite := true;
      sendBuf.ReaderMove(k);
      wire := wire + posted.value[..k];
      posted := None;
    }

    /** The outstanding receive is over with data: every whole frame is passed on, and there is room for more. */
    method OnReadDoneIO(data: seq<byte>)
      requires Valid() && |data| <= recvBuf.Writable()
      modifies this`handled, this`received, recvBuf, recvBuf.buffer
      ensures Valid() && (recvBuf.buffer == old(recvBuf.buffer) || fresh(recvBuf.buffer))
      ensures received == old(received) + data && old(handled) <= handled
    {
      hide SendOk, HasFrame, Stream;
      TakeIn(data);
      HandleFrames();
      recvBuf.MakeSpace(1);
    }

    method HandleFrames()
      requires recvBuf.Valid() && RecvOk(received, handled, recvBuf.Contents())
      modifies this`handled, recvBuf`rpos, recvBuf`wpos
      ensures recvBuf.Valid() && RecvOk(received, handled, recvBuf.Contents()) && old(handled) <= handled
      ensures !HasFrame(recvBuf.Contents())
    {
      while recvBuf.Readable() >= HEAD
        invariant recvBuf.Valid()
        invariant RecvOk(received, handled, recvBuf.Contents()) && old(handled) <= handled
        decreases recvBuf.Readable()
      {
        var kMsgSize := HeadValue(recvBuf.buffer[recvBuf.rpos..recvBuf.wpos]);
        if kMsgSize + HEAD > recvBuf.Readable() { break; }
        TakeFrame();
      }
    }

    method TakeIn(data: seq<byte>)
      requires Valid() && |data| <= recvBuf.Writable()
      modifies this`received, recvBuf, recvBuf.buffer
      ensures recvBuf.Valid() && (recvBuf.buffer == old(recvBuf.buffer) || fresh(recvBuf.buffer))
      ensures received == old(received) + data && RecvOk(received, handled, recvBuf.Contents())
    {
      ghost var was := recvBuf.Contents();
      recvBuf.CopyIn(data);
      Buffer.FirstBehind(recvBuf.buffer[..], recvBuf.wpos, |data|);
      recvBuf.WriterMove(|data|);
      assert recvBuf.Contents() == was + data;
      received := received + data;
      assert received == Stream(handled) + (was + data);
    }

    method TakeFrame()
      requires recvBuf.Valid() && HasFrame(recvBuf.Contents()) && RecvOk(received, handled, recvBuf.Contents())
      modifies this`handled, recvBuf`rpos, recvBuf`wpos
      ensures recvBuf.Valid() && RecvOk(received, handled, recvBuf.Contents())
      ensures handled == old(handled) + [FirstMsg(old(recvBuf.Contents()))]
      ensures recvBuf.Readable() < old(recvBuf.Readable())
    {
      ghost var was := recvBuf.Contents();
      HandleOne(received, handled, was);
      var kMsgSize := HeadValue(recvBuf.buffer[recvBuf.rpos..recvBuf.wpos]);
      var kPackSize := kMsgSize + HEAD;
      handled := handled + [FirstMsg(was)];
      recvBuf.ReaderMove(kPackSize);
      assert recvBuf.Contents() == was[kPackSize..];
    }
  }

  // ----- a connection: any interleaving of both ends and the network -----

  /** The network delivers, in order, what it has taken. */
  class Connection {
    const server: ServLink
    const client: ClientLink

    ghost function Repr(): set<object>
      reads this, server.sendBuf, server.recvBuf, client.sendBuf, client.recvBuf
    {
      {server, client, server.sendBuf, server.recvBuf, client.sendBuf, client.recvBuf,
       server.sendBuf.buffer, server.recvBuf.buffer, client.sendBuf.buffer, client.recvBuf.buffer}
    }

    ghost predicate Valid()
      reads this, server.sendBuf, server.recvBuf, client.sendBuf, client.recvBuf, Repr()
    {
      && {server.sendBuf, server.recvBuf} !! {client.sendBuf, client.recvBuf}
      && {server.sendBuf.buffer, server.recvBuf.buffer} !! {client.sendBuf.buffer, client.recvBuf.buffer}
      && server.Valid() && client.Valid()
      && client.received <= server.wire && server.received <= client.wire
    }

    constructor (nMaxPackage: nat)
      ensures Valid() && fresh(server) && fresh(client)
    {
      hide SendOk, RecvOk, HasFrame, Stream, Judged, Rejected;
      server := new ServLink(nMaxPackage);
      client := new ClientLink();
    }

    /** In every reachable state each end has handled, in order and with nothing added, a beginning of what the other
        end has accepted. */
    lemma InOrder()
      requires Valid()
      ensures client.handled <= server.accepted
      ensures server.handled <= client.accepted
    {
      var s, c := server.sendBuf.Contents(), client.sendBuf.Contents();
      assert Stream(client.handled) <= client.received <= server.wire <= Stream(server.accepted);
      DecodesUniquely(client.handled, server.accepted);
      assert Stream(server.handled) <= server.received <= client.wire <= Stream(client.accepted);
      DecodesUniquely(server.handled, client.accepted);
    }

    /** Once the server has nothing pending and the client has every byte, the client has handled everything. */
    lemma Delivered()
      requires Valid() && server.sendBuf.Readable() == 0 && client.received == server.wire
      ensures client.handled == server.accepted
    {
      assert server.sendBuf.Contents() == [];
      NothingLeftOver(client.handled, client.recvBuf.Contents(), server.accepted);
    }

    /** The other way round, while the server has found nothing wrong with the client. */
    lemma DeliveredToServer()
      requires Valid() && client.sendBuf.Readable() == 0 && server.received == client.wire && !server.bInvalid
      ensures server.handled == client.accepted
    {
      assert client.sendBuf.Contents() == [];
      NothingLeftOver(server.handled, server.recvBuf.Contents(), client.accepted);
    }

    /** The server's link is invalid just when a post has failed, it was asked to send a message that is too long, the
        last message handled made it so, or the head of the next, of nMaxPackage bytes or more, has arrived. */
    lemma WhyInvalid()
      requires Valid()
      ensures var k := |server.handled|;
              server.bInvalid <==>
              (server.failures > 0 || server.refusals > 0 || true in server.verdicts
               || (k < |client.accepted| && |client.accepted[k]| >= server.nMaxPackage
                   && |server.received| >= |Stream(server.handled)| + HEAD))
    {
      InOrder();
      var k := |server.handled|;
      StreamSplit(client.accepted, k);
      assert client.accepted[..k] == server.handled;
      var tail, rest := client.accepted[k..], server.received[|Stream(server.handled)|..];
      assert rest <= Stream(tail) by {
        assert server.received <= Stream(client.accepted) == Stream(server.handled) + Stream(tail);
      }
      if tail != [] && |rest| >= HEAD {
        assert HeadValue(rest) == HeadValue(Stream(tail)) == |tail[0]|;
      }
    }

    /** So without failures, over-long messages on either side and verdicts against it the link stays valid, and all
        that arrives is handled. */
    lemma NothingRejected()
      requires Valid() && server.failures == 0 && server.refusals == 0 && true !in server.verdicts
      requires forall i | 0 <= i < |client.accepted| :: |client.accepted[i]| < server.nMaxPackage
      ensures !server.bInvalid
      ensures client.sendBuf.Readable() == 0 && server.received == client.wire ==> server.handled == client.accepted
    {
      WhyInvalid();
      if client.sendBuf.Readable() == 0 && server.received == client.wire {
        DeliveredToServer();
      }
    }

    // The steps. msg is what a caller sends, ioError whether a post fails, k how much the network moves.

    method ServerSends(msg: Msg, ioError: bool)
      requires Valid()
      modifies Repr()
      ensures Valid() && fresh(Repr() - old(Repr())) && Unlost(old(Taken()), Taken())
    {
      hide SendOk, RecvOk, HasFrame, Stream, Frame, Judged, Rejected, Buffer.Contents;
      var ok := server.SendMsg(msg, ioError);
    }

    method ServerThread(ioError: bool)
      requires Valid()
      modifies Repr()
      ensures Valid() && fresh(Repr() - old(Repr())) && Unlost(old(Taken()), Taken())
    {
      hide SendOk, RecvOk, HasFrame, Stream, Frame, Judged, Rejected, Buffer.Contents;
      server.ServerRunSendIO(ioError);
    }

    method ServerSent(k: nat, ioError: bool)
      requires Valid() && server.posted.Some? && k <= |server.posted.value|
      modifies Repr()
      ensures Valid() && fresh(Repr() - old(Repr())) && Unlost(old(Taken()), Taken())
    {
      hide SendOk, RecvOk, HasFrame, Stream, Judged, Rejected, Buffer.Contents;
      server.OnSendDoneIO(k, ioError);
    }

    method ClientSends(msg: Msg, ioError: bool)
      requires Valid()
      modifies Repr()
      ensures Valid() && fresh(Repr() - old(Repr())) && Unlost(old(Taken()), Taken())
    {
      hide SendOk, RecvOk, HasFrame, Stream, Frame, Judged, Rejected, Buffer.Contents;
      client.SendMsg(msg, ioError);
    }

    method ClientSent(k: nat, ioError: bool)
      requires Valid() && client.posted.Some? && k <= |client.posted.value|
      modifies Repr()
      ensures Valid() && fresh(Repr() - old(Repr())) && Unlost(old(Taken()), Taken())
    {
      hide SendOk, RecvOk, HasFrame, Stream, Judged, Rejected, Buffer.Contents;
      client.OnSendDoneIO(k, ioError);
    }

    method ToClient(k: nat)
      requires Valid() && |client.received| + k <= |server.wire| && k <= client.recvBuf.Writable()
      modifies Repr()
      ensures Valid() && fresh(Repr() - old(Repr())) && Unlost(old(Taken()), Taken())
    {
      hide SendOk, RecvOk, HasFrame, Stream, Frame, Judged, Rejected, Buffer.Contents;
      client.OnReadDoneIO(server.wire[|client.received|..][..k]);
    }

    method ToServer(k: nat)
      requires Valid() && |server.received| + k <= |client.wire| && !server.bInvalid && k <= server.recvBuf.Writable()
      modifies Repr()
      ensures Valid() && fresh(Repr() - old(Repr())) && Unlost(old(Taken()), Taken())
    {
      hide SendOk, RecvOk, HasFrame, Stream, Frame, Judged, Rejected, Buffer.Contents;
      server.OnReadDoneIO(client.wire[|server.received|..][..k]);
    }

    /** What each end has accepted and handled. */
    ghost function Taken(): (seq<Msg>, seq<Msg>, seq<Msg>, seq<Msg>)
      reads server, client
    {
      (server.accepted, client.accepted, server.handled, client.handled)
    }

    /** Nothing once accepted or handled changes or goes away. */
    static ghost predicate Unlost(a: (seq<Msg>, seq<Msg>, seq<Msg>, seq<Msg>), b: (seq<Msg>, seq<Msg>, seq<Msg>,
                                  seq<Msg>)) {
      a.0 <= b.0 && a.1 <= b.1 && a.2 <= b.2 && a.3 <= b.3
    }

    static lemma UnlostItself(a: (seq<Msg>, seq<Msg>, seq<Msg>, seq<Msg>))
      ensures Unlost(a, a)
    {
    }

    static lemma UnlostTwice(a: (seq<Msg>, seq<Msg>, seq<Msg>, seq<Msg>), b: (seq<Msg>, seq<Msg>, seq<Msg>, seq<Msg>),
                             c: (seq<Msg>, seq<Msg>, seq<Msg>, seq<Msg>))
      requires Unlost(a, b) && Unlost(b, c)
      ensures Unlost(a, c)
    {
    }

    /** Any run: any number of steps in any order, with any failures, any part of a posted send completed, and any chunk
        delivered that fits the posted receive. */
    method AnyRun(msgs: seq<Msg>)
      requires Valid()
      modifies Repr()
      ensures Valid() && fresh(Repr() - old(Repr())) && Unlost(old(Taken()), Taken())
    {
      hide Valid, Unlost;
      UnlostItself(Taken());
      for i := 0 to |msgs|
        invariant Valid() && fresh(Repr() - old(Repr())) && Unlost(old(Taken()), Taken())
      {
        ghost var before := Taken();
        AnyStep(msgs[i]);
        UnlostTwice(old(Taken()), before, Taken());
      }
    }

    method AnyStep(msg: Msg)
      requires Valid()
      modifies Repr()
      ensures Valid() && fresh(Repr() - old(Repr())) && Unlost(old(Taken()), Taken())
    {
      var ioError: bool := *;
      var k: int := *;
      if {
        case true => ServerSends(msg, ioError);
        case true => ServerThread(ioError);
        case true => ClientSends(msg, ioError);
        case server.posted.Some? && 0 <= k <= |server.posted.value| => ServerSent(k, ioError);
        case client.posted.Some? && 0 <= k <= |client.posted.value| => ClientSent(k, ioError);
        case 0 <= k <= |server.wire| - |client.received| && k <= client.recvBuf.Writable() => ToClient(k);
        case 0 <= k <= |client.wire| - |server.received| && !server.bInvalid && k <= server.recvBuf.Writable() =>
          ToServer(k);
      }
    }
  }
}
