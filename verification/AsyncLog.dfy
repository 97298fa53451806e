/** AsyncLog with its buffers on the heap: callers append to one buffer while a background thread writes the full ones,
    the two sides exchanging buffers under a lock. Each method is what one thread does between two points where the
    other may run, and does to the buffers what LogModel says. */
module AsyncLog {
  import opened Common
  import opened Framing
  import opened NetBuffer
  import M = LogModel

  type State = M.State<Buffer>
  type Step = M.Step<Buffer>

  ghost predicate Same(b: Buffer?, o: Option<Buffer>) {
    if b == null then o.None? else o == Some(b)
  }

  type Owners = map<array<byte>, Buffer>

  ghost predicate BufferOk(b: Buffer, bytes: M.Bytes, owner: Owners)
    reads b, owner.Keys
  {
    b.buffer in owner && owner[b.buffer] == b && b.Valid() && b.Contents() == bytes
  }

  /** Every buffer made holds what text says, in a vector of its own. */
  ghost predicate BuffersOk(text: map<Buffer, M.Bytes>, owner: Owners)
    reads text.Keys, owner.Keys
  {
    forall b {:trigger BufferOk(b, text[b], owner)} | b in text :: BufferOk(b, text[b], owner)
  }

  class AsyncLog {
    const maxSize: nat
    var running: bool
    var curBuf: Buffer
    var nextBuf: Buffer?
    var bufVec: seq<Buffer>
    // local to the writer thread
    var pc: M.Pc
    var spareBuf1: Buffer?
    var spareBuf2: Buffer?
    var bufToWrite: seq<Buffer>
    // what _writeLogFunc has put out
    var file: seq<byte>
    // what all this means, and how it came about
    ghost var m: State
    ghost var owner: Owners
    ghost var ss: seq<State>
    ghost var es: seq<Step>

    /** The fields are as m says. */
    ghost predicate FieldsOk()
      reads this
    {
      && running == m.running && curBuf == m.cur && Same(nextBuf, m.next) && bufVec == m.vec && pc == m.pc
      && Same(spareBuf1, m.spare1) && Same(spareBuf2, m.spare2) && bufToWrite == m.taken
      && file == m.written
    }

    ghost predicate Valid()
      reads this, m.text.Keys, owner.Keys
    {
      && FieldsOk()
      && BuffersOk(m.text, owner)
      && M.Good(m)
      && M.Run(ss, es) && ss[|es|] == m
    }

    /** In every interleaving the output and the buffers together are what was appended; at the end the output alone is,
        just when no call to Append came after the last write. */
    lemma OutputPlusHeld()
      requires Valid()
      ensures pc != M.AtEnd ==> M.HeldOnce(m) && m.appended == file + M.Held(m)
      ensures pc == M.AtEnd ==> file <= m.appended && (file == m.appended <==> m.late == [])
    {
    }

    /** While running, the writer stays in its loop. Once it has ended, all that had been appended at any time before
        Stop is in the output. */
    lemma StopLosesNothing()
      requires Valid()
      ensures running ==> pc != M.AtFlush && pc != M.AtEnd
      ensures pc == M.AtEnd ==> forall i | 0 <= i <= |es| && ss[i].running :: ss[i].appended <= file
    {
      M.EndsOnlyAfterStop(ss, es);
      hide M.Run, M.Good;
      if pc == M.AtEnd {
        forall i | 0 <= i <= |es| && ss[i].running ensures ss[i].appended <= file {
          M.StopLosesNothing(ss, es, i);
        }
      }
    }

    constructor (maxSize: nat)
      ensures Valid() && fresh(m.text.Keys) && fresh(owner.Keys) && es == [] && running && pc == M.AtTest
    {
      hide M.Run, M.Good, M.IsNew, M.HeldOnce, M.Spares, M.Held, M.Happens, BuffersOk;
      var a, b, c, d, o := FourBuffers(maxSize);
      this.maxSize := maxSize;
      running, curBuf, nextBuf, bufVec := true, a, b, [];
      pc, spareBuf1, spareBuf2, bufToWrite := M.AtTest, c, d, [];
      file := [];
      owner := o;
      m := FirstState(a, b, c, d);
      ss, es := [FirstState(a, b, c, d)], [];
      M.RunStarts(FirstState(a, b, c, d));
    }

    static method FourBuffers(maxSize: nat) returns (a: Buffer, b: Buffer, c: Buffer, d: Buffer, ghost owner: Owners)
      ensures a != b && a != c && a != d && b != c && b != d && c != d
      ensures BuffersOk(FirstState(a, b, c, d).text, owner)
      ensures fresh(FirstState(a, b, c, d).text.Keys) && fresh(owner.Keys)
    {
      hide BuffersOk, M.IsNew, M.Good;
      ghost var text: map<Buffer, M.Bytes>;
      a, text, owner := NewBuffer(maxSize, map[], map[]);
      b, text, owner := NewBuffer(maxSize, text, owner);
      c, text, owner := NewBuffer(maxSize, text, owner);
      d, text, owner := NewBuffer(maxSize, text, owner);
    }

    static method NewBuffer(maxSize: nat, ghost text: map<Buffer, M.Bytes>, ghost owner: Owners)
      returns (b: Buffer, ghost text': map<Buffer, M.Bytes>, ghost owner': Owners)
      requires BuffersOk(text, owner)
      ensures fresh(b) && fresh(b.buffer) && text' == text[b := []] && owner' == owner[b.buffer := b]
      ensures BuffersOk(text', owner')
    {
      b := new Buffer(maxSize);
      text', owner' := text[b := []], owner[b.buffer := b];
      forall c | c in text' ensures BufferOk(c, text'[c], owner') {
        if c in text {
          assert old(BufferOk(c, text[c], owner));
        }
      }
    }

    static ghost function FirstState(a: Buffer, b: Buffer, c: Buffer, d: Buffer): (s: State)
      requires a != b && a != c && a != d && b != c && b != d && c != d
      ensures M.IsNew(s) && M.Good(s)
    {
      M.State<Buffer>.State(true, a, Some(b), [], M.AtTest, Some(c), Some(d), [],
              map[a := M.Cur, b := M.Next, c := M.Spare1, d := M.Spare2],
              map[a := [], b := [], c := [], d := []], [], [], [])
    }

    /** The step e has been taken, the fields and buffers are as it says. */
    ghost method Note(e: Step)
      requires M.Run(ss, es) && M.Good(ss[|es|]) && M.Legal(ss[|es|], e) && m == M.Apply(ss[|es|], e)
      modifies this`ss, this`es
      ensures M.Run(ss, es) && ss[|es|] == m && M.Good(m) && es == old(es) + [e] && ss == old(ss) + [m]
      ensures M.Happens(old(ss)[|old(es)|], e, m)
    {
      M.ApplyGood(ss[|es|], e);
      ss, es := ss + [m], es + [e];
    }

    // ----- any caller -----

    /** data goes behind everything appended so far; a buffer with no room left is queued and another takes its
        place. */
    method Append(data: seq<byte>)
      requires Valid()
      modifies this, curBuf, curBuf.buffer
      ensures Valid() && m.appended == old(m.appended) + data && pc == old(pc)
      ensures |es| == |old(es)| + 1 && es[..|old(es)|] == old(es) && ss == old(ss) + [m]
      ensures var e := es[|old(es)|]; e.Append? && e.data == data && M.Happens(old(m), e, m)
      ensures es[|old(es)|].full <==> old(curBuf).wpos == old(curBuf).buffer.Length
    {
      hide M.Run, M.Good, M.Appended, M.Rotated, M.HeldOnce, M.CanRotate;
      ghost var before := m;
      M.ExtendGood(m, data);
      var full, made := ExtendAndRotate(data);
      M.AppendStep(before, data, full, made);
      Note(M.Append(data, full, made));
    }

    /** The buffer that had no room left is in the queue now, and only then. */
    method ExtendAndRotate(data: seq<byte>) returns (full: bool, ghost made: Option<Buffer>)
      requires FieldsOk() && BuffersOk(m.text, owner) && m.cur in m.text && M.Good(M.Extended(m, data))
      modifies this`m, this`owner, this`bufVec, this`curBuf, this`nextBuf, curBuf, curBuf.buffer
      ensures FieldsOk() && BuffersOk(m.text, owner)
      ensures full ==> M.CanRotate(M.Extended(old(m), data), made)
      ensures m == M.Appended(old(m), data, full, made)
      ensures full <==> old(curBuf).wpos == old(curBuf).buffer.Length
      ensures bufVec == if full then old(bufVec) + [old(curBuf)] else old(bufVec)
    {
      hide M.Good, M.Rotated, BuffersOk;
      ExtendCur(data);
      full := curBuf.Writable() == 0;
      made := None;
      if full {
        made := Rotate();
      }
    }

    method ExtendCur(data: seq<byte>)
      requires FieldsOk() && BuffersOk(m.text, owner) && m.cur in m.text
      modifies this`m, this`owner, curBuf, curBuf.buffer
      ensures FieldsOk() && BuffersOk(m.text, owner) && m == M.Extended(old(m), data) && curBuf.Valid()
    {
      assert BufferOk(curBuf, m.text[curBuf], owner);
      curBuf.Append(data);
      owner := owner[curBuf.buffer := curBuf];
      m := M.Extended(m, data);
      forall b | b in m.text ensures BufferOk(b, m.text[b], owner) {
        assert old(BufferOk(b, m.text[b], owner));
      }
    }

    method Rotate() returns (ghost made: Option<Buffer>)
      requires FieldsOk() && BuffersOk(m.text, owner) && M.Good(m)
      modifies this`m, this`owner, this`bufVec, this`curBuf, this`nextBuf
      ensures FieldsOk() && BuffersOk(m.text, owner) && M.CanRotate(old(m), made) && m == M.Rotated(old(m), made)
      ensures bufVec == old(bufVec) + [old(curBuf)]
    {
      hide M.Good, M.Rotated, BuffersOk;
      bufVec := bufVec + [curBuf];
      made := ReplaceCur();
      M.RotateStep(m, made);
      m := M.Rotated(m, made);
    }

    /** The next buffer becomes the current one, or a new one if there is none. */
    method ReplaceCur() returns (ghost made: Option<Buffer>)
      requires BuffersOk(m.text, owner) && Same(nextBuf, m.next)
      modifies this`owner, this`curBuf, this`nextBuf
      ensures nextBuf == null && M.CanRotate(m, made)
      ensures m.next.Some? ==> curBuf == m.next.value && owner == old(owner)
      ensures m.next.None? ==> made == Some(curBuf) && BuffersOk(m.text[curBuf := []], owner)
    {
      hide BuffersOk;
      made := None;
      if nextBuf != null {
        curBuf := nextBuf;
        nextBuf := null;
      } else {
        var b;
        ghost var text;
        b, text, owner := NewBuffer(maxSize, m.text, owner);
        NotYetThere(b);
        curBuf, made := b, Some(b);
      }
    }

    twostate lemma NotYetThere(new b: Buffer)
      requires fresh(b) && m == old(m)
      ensures b !in m.text
    {
    }

    method Stop()
      requires Valid()
      modifies this`running, this`m, this`ss, this`es
      ensures Valid() && M.Happens(old(m), M.Stop, m) && es == old(es) + [M.Stop] && ss == old(ss) + [m]
    {
      hide M.Run, M.Good;
      running := false;
      m := M.Apply(m, M.Stop);
      Note(M.Stop);
    }

    // ----- the writer thread -----

    method Test()
      requires Valid() && pc == M.AtTest
      modifies this`pc, this`m, this`ss, this`es
      ensures Valid() && M.Happens(old(m), M.Test, m) && es == old(es) + [M.Test] && ss == old(ss) + [m]
    {
      hide M.Run, M.Good;
      pc := if running then M.AtWait else M.AtFlush;
      m := M.Apply(m, M.Test);
      Note(M.Test);
    }

    /** The block under the lock. */
    method Take()
      requires Valid() && pc == M.AtWait
      modifies this
      ensures Valid() && M.Happens(old(m), M.Take, m) && es == old(es) + [M.Take] && ss == old(ss) + [m]
    {
      hide M.Run, M.Good, M.TakeBatch, M.HeldOnce, M.Legal;
      M.TakeStep(m);
      Exchange();
      Note(M.Take);
    }

    method Exchange()
      requires FieldsOk() && M.Good(m) && m.pc == M.AtWait
      modifies this`curBuf, this`nextBuf, this`bufVec, this`pc, this`spareBuf1, this`spareBuf2, this`bufToWrite, this`m
      ensures FieldsOk() && old(m).spare1.Some? && m == M.TakeBatch(old(m)) && m.text == old(m.text)
    {
      hide M.TakeBatch, M.Good;
      M.TakeStep(m);
      bufToWrite, bufVec := bufVec, bufToWrite;
      bufToWrite := bufToWrite + [curBuf];
      curBuf := spareBuf1;
      spareBuf1 := null;
      if nextBuf == null {
        nextBuf := spareBuf2;
        spareBuf2 := null;
      }
      pc := M.AtWrite;
      m := M.TakeBatch(m);
    }

    method Write()
      requires Valid() && pc == M.AtWrite
      modifies this`file, this`pc, this`m, this`ss, this`es
      ensures Valid() && M.Happens(old(m), M.Write, m) && es == old(es) + [M.Write] && ss == old(ss) + [m]
    {
      hide M.Run, M.Good, M.Text, M.AllKnown, M.Legal;
      M.WriteStep(m);
      Output(bufToWrite);
      pc := M.AtRecycle;
      m := M.Apply(m, M.Write);
      Note(M.Write);
    }

    /** _writeLogFunc puts out what the buffers hold, one after the other. */
    method Output(bs: seq<Buffer>)
      requires BuffersOk(m.text, owner) && M.AllKnown(m, bs)
      modifies this`file
      ensures file == old(file) + M.Text(m.text, bs)
    {
      for i := 0 to |bs|
        invariant file == old(file) + M.Text(m.text, bs[..i])
      {
        assert BufferOk(bs[i], m.text[bs[i]], owner);
        file := file + bs[i].buffer[bs[i].rpos..bs[i].wpos];
        assert bs[..i + 1][..i] == bs[..i];
      }
      assert bs[..|bs|] == bs;
    }

    method Recycle()
      requires Valid() && pc == M.AtRecycle
      modifies this, bufToWrite
      ensures Valid() && M.Happens(old(m), M.Recycle, m) && es == old(es) + [M.Recycle] && ss == old(ss) + [m]
    {
      hide M.Run, M.Good, M.RecycleBatch, M.HeldOnce, M.Legal;
      M.RecycleStep(m);
      Refill();
      Note(M.Recycle);
    }

    method Refill()
      requires FieldsOk() && BuffersOk(m.text, owner) && M.Good(m) && m.pc == M.AtRecycle
      modifies this`pc, this`spareBuf1, this`spareBuf2, this`bufToWrite, this`m, bufToWrite
      ensures FieldsOk() && BuffersOk(m.text, owner) && M.Legal(old(m), M.Recycle) && m == M.Apply(old(m), M.Recycle)
    {
      hide M.RecycleBatch, BuffersOk, M.Good, M.Apply, M.Legal;
      M.RecycleStep(m);
      ghost var text := ReadySpares();
      bufToWrite := [];
      pc := M.AtTest;
      m := M.Apply(m, M.Recycle);
    }

    method ReadySpares() returns (ghost text: map<Buffer, M.Bytes>)
      requires FieldsOk() && BuffersOk(m.text, owner)
      requires m.taken != [] && m.taken[0] in m.text && m.spare1.None?
      requires m.spare2.None? ==> |m.taken| >= 2 && m.taken[1] in m.text
      modifies this`spareBuf1, this`spareBuf2, bufToWrite
      ensures spareBuf1 == bufToWrite[0] && Same(spareBuf2, if m.spare2.Some? then m.spare2 else Some(bufToWrite[1]))
      ensures text == (var t := m.text[m.taken[0] := []]; if m.spare2.Some? then t else t[m.taken[1] := []])
      ensures BuffersOk(text, owner)
    {
      hide BuffersOk;
      text := m.text;
      if spareBuf1 == null {
        spareBuf1 := bufToWrite[0];
        text := ClearOne(bufToWrite[0], text);
      }
      if spareBuf2 == null {
        spareBuf2 := bufToWrite[1];
        text := ClearOne(bufToWrite[1], text);
      }
    }

    method ClearOne(b: Buffer, ghost text: map<Buffer, M.Bytes>) returns (ghost now: map<Buffer, M.Bytes>)
      requires b in text && BuffersOk(text, owner)
      modifies b
      ensures now == text[b := []] && BuffersOk(now, owner)
    {
      assert BufferOk(b, text[b], owner);
      b.Clear();
      now := text[b := []];
      forall c | c in now ensures BufferOk(c, now[c], owner) {
        assert old(BufferOk(c, text[c], owner));
      }
    }

    method Flush()
      requires Valid() && pc == M.AtFlush
      modifies this`file, this`pc, this`bufVec, this`m, this`ss, this`es
      ensures Valid() && M.Happens(old(m), M.Flush, m) && es == old(es) + [M.Flush] && ss == old(ss) + [m]
      ensures file == m.appended
    {
      hide M.Run, M.Good, M.Text, M.AllKnown, M.Legal;
      M.FlushStep(m);
      OutputRest();
      Note(M.Flush);
    }

    method OutputRest()
      requires FieldsOk() && BuffersOk(m.text, owner) && M.AllKnown(m, m.vec + [m.cur])
      modifies this`file, this`pc, this`bufVec, this`m
      ensures FieldsOk() && m == M.FlushRest(old(m)) && m.text == old(m).text
    {
      hide BuffersOk, M.Text, M.AllKnown;
      bufVec := bufVec + [curBuf];
      Output(bufVec);
      pc := M.AtEnd;
      m := M.FlushRest(m);
    }
  }
}
