/** The exchange of buffers between the callers of AsyncLog and its writer thread, as steps on values. T names a
    buffer. */
module LogModel {
  import opened Common

  type Bytes = seq<int>

  /** Where the writer thread is in _WriteLoop: testing _running, waiting on the condition, about to write what it took,
      about to recycle it, past the loop, or done. */
  datatype Pc = AtTest | AtWait | AtWrite | AtRecycle | AtFlush | AtEnd

  /** Who holds a buffer. */
  datatype Role = Cur | Next | Spare1 | Spare2 | Queued(i: nat) | Taken(i: nat)

  /** The fields of AsyncLog and the locals of _WriteLoop; role and text say of every buffer who holds it and what it
      contains. The rest is history: all bytes appended, all written, and those appended after the last write. */
  datatype State<!T> = State(
    running: bool, cur: T, next: Option<T>, vec: seq<T>,
    pc: Pc, spare1: Option<T>, spare2: Option<T>, taken: seq<T>,
    role: map<T, Role>, text: map<T, Bytes>,
    appended: Bytes, written: Bytes, late: Bytes)

  datatype Step<T> =
    | Append(data: Bytes, full: bool, made: Option<T>)
    | Stop
    | Test
    | Take
    | Write
    | Recycle
    | Flush

  ghost function Text<T>(text: map<T, Bytes>, bs: seq<T>): Bytes
    requires forall i | 0 <= i < |bs| :: bs[i] in text
  {
    if bs == [] then [] else Text(text, bs[..|bs| - 1]) + text[bs[|bs| - 1]]
  }

  ghost predicate HeldAs<T>(s: State<T>, b: T, r: Role) {
    b in s.role && b in s.text && s.role[b] == r
  }

  /** Every buffer in use is held once: the fields and the vectors share none. */
  ghost predicate HeldOnce<T>(s: State<T>) {
    && HeldAs(s, s.cur, Cur)
    && (s.next.Some? ==> HeldAs(s, s.next.value, Next) && s.text[s.next.value] == [])
    && (s.spare1.Some? ==> HeldAs(s, s.spare1.value, Spare1) && s.text[s.spare1.value] == [])
    && (s.spare2.Some? ==> HeldAs(s, s.spare2.value, Spare2) && s.text[s.spare2.value] == [])
    && (forall i {:trigger s.vec[i]} | 0 <= i < |s.vec| :: HeldAs(s, s.vec[i], Queued(i)))
    && (forall i {:trigger s.taken[i]} | 0 <= i < |s.taken| :: HeldAs(s, s.taken[i], Taken(i)))
  }

  /** The writer has both spares but while it has a batch; it has given the second away only for a batch of two. */
  ghost predicate Spares<T>(s: State<T>) {
    && (s.next.None? ==> s.vec != [])
    && if s.pc == AtWrite || s.pc == AtRecycle
       then s.spare1.None? && s.taken != [] && (s.spare2.None? ==> |s.taken| >= 2)
       else s.spare1.Some? && s.spare2.Some? && s.taken == []
  }

  ghost function Held<T>(s: State<T>): Bytes
    requires HeldOnce(s)
  {
    (if s.pc == AtWrite then Text(s.text, s.taken) else []) + Text(s.text, s.vec) + s.text[s.cur]
  }

  ghost predicate Good<T>(s: State<T>) {
    && (forall b | b in s.role :: b in s.text)
    && if s.pc == AtEnd then
      s.appended == s.written + s.late && s.cur in s.text && (s.next.Some? ==> s.next.value in s.text)
    else HeldOnce(s) && Spares(s) && s.late == [] && s.appended == s.written + Held(s)
  }

  /** made is a new buffer, where one has to be made. */
  ghost predicate CanRotate<T>(s: State<T>, made: Option<T>) {
    s.next.None? ==> made.Some? && made.value !in s.text
  }

  ghost predicate Legal<T>(s: State<T>, e: Step<T>) {
    match e
    case Append(data, full, made) => full ==> CanRotate(s, made)
    case Stop => true
    case Test => s.pc == AtTest
    case Take => s.pc == AtWait
    case Write => s.pc == AtWrite
    case Recycle => s.pc == AtRecycle
    case Flush => s.pc == AtFlush
  }

  ghost function Extended<T>(s: State<T>, data: Bytes): State<T>
    requires s.cur in s.text
  {
    s.(text := s.text[s.cur := s.text[s.cur] + data],
       appended := s.appended + data,
       late := if s.pc == AtEnd then s.late + data else s.late)
  }

  /** The current buffer is queued and the next one, or one just made, takes its place. */
  ghost function Rotated<T>(s: State<T>, made: Option<T>): State<T>
    requires s.next.None? ==> made.Some?
  {
    var q := s.(vec := s.vec + [s.cur], role := s.role[s.cur := Queued(|s.vec|)]);
    if s.next.Some? then q.(cur := s.next.value, next := None, role := q.role[s.next.value := Cur])
    else q.(cur := made.value, role := q.role[made.value := Cur], text := q.text[made.value := []])
  }

  /** Append, with full whether the buffer has no room left afterwards and made the buffer made when none is next. */
  ghost function Appended<T>(s: State<T>, data: Bytes, full: bool, made: Option<T>): State<T>
    requires s.cur in s.text && (full ==> s.next.None? ==> made.Some?)
  {
    if full then Rotated(Extended(s, data), made) else Extended(s, data)
  }

  /** The block under the lock: everything queued and the current buffer become the batch, the spares take their
      place. */
  ghost function TakeBatch<T>(s: State<T>): State<T>
    requires s.spare1.Some?
  {
    var roles := map b | b in s.role :: if s.role[b].Queued? then Taken(s.role[b].i) else s.role[b];
    var t := s.(taken := s.vec + [s.cur], vec := [], role := roles[s.cur := Taken(|s.vec|)], pc := AtWrite);
    var c := t.(cur := s.spare1.value, spare1 := None, role := t.role[s.spare1.value := Cur]);
    if s.next.None? && s.spare2.Some? then
      c.(next := s.spare2, spare2 := None, role := c.role[s.spare2.value := Next])
    else c
  }

  ghost predicate AllKnown<T>(s: State<T>, bs: seq<T>) {
    forall i | 0 <= i < |bs| :: bs[i] in s.text
  }

  ghost function WriteBatch<T>(s: State<T>): State<T>
    requires AllKnown(s, s.taken)
  {
    s.(written := s.written + Text(s.text, s.taken), pc := AtRecycle)
  }

  /** The batch is dropped, but for one or two buffers that become the spares again. */
  ghost function RecycleBatch<T>(s: State<T>): State<T>
    requires s.taken != [] && (s.spare2.None? ==> |s.taken| >= 2)
  {
    var a := s.taken[0];
    var r := s.(spare1 := Some(a), text := s.text[a := []], role := s.role[a := Spare1], taken := [], pc := AtTest);
    if s.spare2.Some? then r else
    var b := s.taken[1];
    r.(spare2 := Some(b), text := r.text[b := []], role := r.role[b := Spare2])
  }

  /** What is left, after the loop. */
  ghost function FlushRest<T>(s: State<T>): State<T>
    requires AllKnown(s, s.vec + [s.cur])
  {
    s.(vec := s.vec + [s.cur], written := s.written + Text(s.text, s.vec + [s.cur]), pc := AtEnd)
  }

  // ----- every step keeps it -----

  lemma {:induction false} SameText<T>(text: map<T, Bytes>, text': map<T, Bytes>, bs: seq<T>)
    requires forall i | 0 <= i < |bs| :: bs[i] in text && bs[i] in text' && text[bs[i]] == text'[bs[i]]
    ensures Text(text, bs) == Text(text', bs)
  {
    if bs != [] {
      SameText(text, text', bs[..|bs| - 1]);
    }
  }

  lemma ExtendGood<T>(s: State<T>, data: Bytes)
    requires Good(s)
    ensures s.cur in s.text && Good(Extended(s, data))
  {
    if s.pc != AtEnd {
      var r := Extended(s, data);
      SameText(s.text, r.text, s.taken);
      SameText(s.text, r.text, s.vec);
    }
  }

  lemma RotateHeld<T>(s: State<T>, made: Option<T>)
    requires HeldOnce(s) && CanRotate(s, made) && (forall b | b in s.role :: b in s.text)
    ensures HeldOnce(Rotated(s, made))
  {
  }

  lemma RotateGood<T>(s: State<T>, made: Option<T>)
    requires Good(s) && CanRotate(s, made)
    ensures Good(Rotated(s, made))
  {
    if s.pc != AtEnd {
      var r := Rotated(s, made);
      RotateHeld(s, made);
      RotateMovesText(s, made);
    }
  }

  lemma RotateKeepsText<T>(s: State<T>, made: Option<T>)
    requires HeldOnce(s) && CanRotate(s, made)
    ensures var r := Rotated(s, made);
            && r.vec == s.vec + [s.cur] && r.taken == s.taken && r.pc == s.pc
            && r.cur in r.text && r.text[r.cur] == []
            && (forall b | b in s.text :: b in r.text && r.text[b] == s.text[b])
            && (forall i | 0 <= i < |s.taken| :: s.taken[i] in s.text)
            && (forall i | 0 <= i < |r.vec| :: r.vec[i] in s.text)
  {
  }

  lemma RotateMovesText<T>(s: State<T>, made: Option<T>)
    requires HeldOnce(s) && CanRotate(s, made) && (forall b | b in s.role :: b in s.text) && HeldOnce(Rotated(s, made))
    ensures Held(Rotated(s, made)) == Held(s)
  {
    var r := Rotated(s, made);
    RotateKeepsText(s, made);
    hide HeldOnce, CanRotate, Rotated;
    SameText(s.text, r.text, s.taken);
    SameText(s.text, r.text, r.vec);
    assert r.vec[..|s.vec|] == s.vec;
  }

  lemma TakeHeld<T>(s: State<T>)
    requires HeldOnce(s) && s.spare1.Some? && s.taken == []
    ensures HeldOnce(TakeBatch(s)) && TakeBatch(s).role.Keys <= s.role.Keys
  {
  }

  lemma TakeGood<T>(s: State<T>)
    requires Good(s) && Legal(s, Step<T>.Take)
    ensures Good(TakeBatch(s)) && TakeBatch(s).written == s.written && TakeBatch(s).appended == s.appended
  {
    hide HeldOnce, Held;
    TakeHeld(s);
    TakeMovesText(s);
  }

  lemma TakeMovesText<T>(s: State<T>)
    requires HeldOnce(s) && s.spare1.Some? && HeldOnce(TakeBatch(s)) && s.taken == []
    ensures Held(TakeBatch(s)) == Text(s.text, s.vec) + s.text[s.cur]
    ensures s.pc != AtWrite ==> Held(TakeBatch(s)) == Held(s)
  {
  }

  lemma RecycleHeld<T>(s: State<T>)
    requires HeldOnce(s) && s.taken != [] && s.spare1.None? && (s.spare2.None? ==> |s.taken| >= 2)
    ensures HeldOnce(RecycleBatch(s))
  {
  }

  lemma RecycleKeepsText<T>(s: State<T>)
    requires HeldOnce(s) && s.taken != [] && (s.spare2.None? ==> |s.taken| >= 2)
    ensures var r := RecycleBatch(s);
            && r.cur == s.cur && r.cur in r.text && r.text[r.cur] == s.text[s.cur]
            && (forall i | 0 <= i < |s.vec| ::
                  s.vec[i] in s.text && s.vec[i] in r.text && r.text[s.vec[i]] == s.text[s.vec[i]])
  {
  }

  lemma RecycleGood<T>(s: State<T>)
    requires Good(s) && Legal(s, Step<T>.Recycle)
    ensures Good(RecycleBatch(s)) && RecycleBatch(s).written == s.written && RecycleBatch(s).appended == s.appended
  {
    RecycleHeld(s);
    RecycleKeepsText(s);
    hide HeldOnce;
    SameText(s.text, RecycleBatch(s).text, s.vec);
  }

  lemma FlushGood<T>(s: State<T>)
    requires Good(s) && Legal(s, Step<T>.Flush)
    ensures AllKnown(s, s.vec + [s.cur]) && Good(FlushRest(s))
    ensures s.written <= FlushRest(s).written == s.appended == FlushRest(s).appended
  {
  }

  lemma AppendGood<T>(s: State<T>, data: Bytes, full: bool, made: Option<T>)
    requires Good(s) && (full ==> CanRotate(s, made))
    ensures s.cur in s.text && Good(Appended(s, data, full, made))
    ensures Appended(s, data, full, made).appended == s.appended + data
    ensures Appended(s, data, full, made).written == s.written
  {
    ExtendGood(s, data);
    hide HeldOnce, Good;
    if full { RotateGood(Extended(s, data), made); }
  }

  ghost function Apply<T>(s: State<T>, e: Step<T>): State<T>
    requires Good(s) && Legal(s, e)
  {
    match e
    case Append(data, full, made) => Appended(s, data, full, made)
    case Stop => s.(running := false)
    case Test => s.(pc := if s.running then AtWait else AtFlush)
    case Take => TakeBatch(s)
    case Write => WriteBatch(s)
    case Recycle => RecycleBatch(s)
    case Flush => FlushGood(s); FlushRest(s)
  }

  /** Nothing is lost, doubled or reordered by any step: what was written is only added to. */
  lemma ApplyGood<T>(s: State<T>, e: Step<T>)
    requires Good(s) && Legal(s, e)
    ensures Good(Apply(s, e)) && s.written <= Apply(s, e).written && s.appended <= Apply(s, e).appended
  {
    hide Good, HeldOnce, Spares, Held, CanRotate, TakeBatch, RecycleBatch, FlushRest, Appended, WriteBatch;
    match e
    case Append(data, full, made) => AppendGood(s, data, full, made);
    case Stop => PassGood(s, e);
    case Test => PassGood(s, e);
    case Take => TakeGood(s);
    case Write => PassGood(s, e);
    case Recycle => RecycleGood(s);
    case Flush => FlushGood(s);
  }

  lemma PassGood<T>(s: State<T>, e: Step<T>)
    requires Good(s) && Legal(s, e) && (e.Stop? || e.Test? || e.Write?)
    ensures Good(Apply(s, e)) && s.written <= Apply(s, e).written && s.appended <= Apply(s, e).appended
  {
  }

  // ----- what the steps do to the fields -----

  lemma AppendStep<T>(s: State<T>, data: Bytes, full: bool, made: Option<T>)
    requires Good(s) && s.cur in s.text && (full ==> CanRotate(Extended(s, data), made))
    ensures Legal(s, Step<T>.Append(data, full, made))
    ensures var r := Appended(s, data, full, made);
            r == Apply(s, Step<T>.Append(data, full, made)) && r.appended == s.appended + data && r.pc == s.pc
  {
  }

  lemma RotateStep<T>(s: State<T>, made: Option<T>)
    requires CanRotate(s, made)
    ensures var r := Rotated(s, made);
            && r.written == s.written && r.running == s.running && r.vec == s.vec + [s.cur] && r.next == None
            && r.pc == s.pc
            && r.spare1 == s.spare1 && r.spare2 == s.spare2 && r.taken == s.taken
            && r.cur == (if s.next.Some? then s.next.value else made.value)
            && r.text == (if s.next.Some? then s.text else s.text[made.value := []])
  {
  }

  lemma TakeStep<T>(s: State<T>)
    requires Good(s) && s.pc == AtWait
    ensures s.spare1.Some? && s.spare2.Some? && s.taken == [] && Legal(s, Step<T>.Take)
    ensures var r := TakeBatch(s);
            && r == Apply(s, Step<T>.Take)
            && r.written == s.written && r.running == s.running && r.cur == s.spare1.value && r.vec == []
            && r.pc == AtWrite
            && r.next == (if s.next.None? then s.spare2 else s.next)
            && r.spare1 == None && r.spare2 == (if s.next.None? then None else s.spare2)
            && r.taken == s.vec + [s.cur] && r.text == s.text
  {
  }

  lemma WriteStep<T>(s: State<T>)
    requires Good(s) && s.pc == AtWrite
    ensures AllKnown(s, s.taken) && Legal(s, Step<T>.Write)
    ensures Apply(s, Step<T>.Write) == s.(written := s.written + Text(s.text, s.taken), pc := AtRecycle)
  {
  }

  lemma RecycleStep<T>(s: State<T>)
    requires Good(s) && s.pc == AtRecycle
    ensures s.spare1.None? && s.taken != [] && s.taken[0] in s.text && Legal(s, Step<T>.Recycle)
    ensures s.spare2.None? ==> |s.taken| >= 2 && s.taken[1] in s.text
    ensures var r := RecycleBatch(s);
            && r == Apply(s, Step<T>.Recycle)
            && r.written == s.written && r.running == s.running && r.cur == s.cur && r.vec == s.vec && r.next == s.next
            && r.pc == AtTest && r.spare1 == Some(s.taken[0]) && r.taken == []
            && r.spare2 == (if s.spare2.Some? then s.spare2 else Some(s.taken[1]))
            && r.text == (var t := s.text[s.taken[0] := []]; if s.spare2.Some? then t else t[s.taken[1] := []])
  {
  }

  lemma FlushStep<T>(s: State<T>)
    requires Good(s) && s.pc == AtFlush
    ensures AllKnown(s, s.vec + [s.cur]) && Legal(s, Step<T>.Flush) && Apply(s, Step<T>.Flush) == FlushRest(s)
    ensures FlushRest(s).written == s.appended == FlushRest(s).appended
  {
  }

  // ----- every interleaving -----

  /** The constructor's state: four different, empty buffers. */
  ghost predicate IsNew<T>(s: State<T>) {
    && s.running && s.pc == AtTest && s.next.Some? && s.spare1.Some? && s.spare2.Some? && s.vec == [] && s.taken == []
    && HeldOnce(s) && (forall b | b in s.role :: b in s.text)
    && s.text[s.cur] == [] && s.appended == s.written == s.late == []
  }

  ghost predicate Happens<T>(s: State<T>, e: Step<T>, r: State<T>) {
    Good(s) && Legal(s, e) && r == Apply(s, e)
  }

  /** Step es[i] leads from ss[i] to ss[i + 1]. */
  ghost predicate Run<T>(ss: seq<State<T>>, es: seq<Step<T>>) {
    && |ss| == |es| + 1 && IsNew(ss[0])
    && (forall i {:trigger es[i]} | 0 <= i < |es| :: Happens(ss[i], es[i], ss[i + 1]))
  }

  lemma RunStarts<T>(s: State<T>)
    requires IsNew(s)
    ensures Run([s], []) && Good(s)
  {
  }

  lemma {:induction false} RunGood<T>(ss: seq<State<T>>, es: seq<Step<T>>)
    requires Run(ss, es)
    ensures Good(ss[|es|])
    decreases |es|
  {
    if es != [] {
      var k := |es| - 1;
      RunGood(ss[..|es|], es[..k]);
      assert Happens(ss[k], es[k], ss[k + 1]);
      ApplyGood(ss[k], es[k]);
    }
  }

  /** However callers and writer interleave, until the writer's last write every byte appended is written or held by one
      buffer, in the order of appending. */
  lemma WrittenPlusHeld<T>(ss: seq<State<T>>, es: seq<Step<T>>)
    requires Run(ss, es) && ss[|es|].pc != AtEnd
    ensures var s := ss[|es|]; HeldOnce(s) && s.appended == s.written + Held(s)
  {
    RunGood(ss, es);
  }

  /** When the writer has ended, everything has been written, just when nothing was appended after its last write. */
  lemma AllWrittenAtEnd<T>(ss: seq<State<T>>, es: seq<Step<T>>)
    requires Run(ss, es) && ss[|es|].pc == AtEnd
    ensures var s := ss[|es|]; s.written <= s.appended && (s.written == s.appended <==> s.late == [])
  {
    RunGood(ss, es);
    assert |ss[|es|].appended| == |ss[|es|].written| + |ss[|es|].late|;
  }

  /** bufToWriteVec has its second buffer whenever the second spare was taken. */
  lemma SecondBufferExists<T>(ss: seq<State<T>>, es: seq<Step<T>>)
    requires Run(ss, es) && ss[|es|].pc == AtRecycle
    ensures var s := ss[|es|]; s.spare1.None? && |s.taken| >= 1 && (s.spare2.None? ==> |s.taken| >= 2)
  {
    RunGood(ss, es);
  }

  // ----- stopping -----

  lemma StepOfRunning<T>(s: State<T>, e: Step<T>, r: State<T>)
    requires Happens(s, e, r)
    ensures r.running == (s.running && !e.Stop?) && s.appended <= r.appended && s.written <= r.written
    ensures r.pc == AtEnd && s.pc != AtEnd ==> s.pc == AtFlush && r.written == s.appended
    ensures r.pc == AtFlush && s.pc != AtFlush ==> !s.running
  {
    hide HeldOnce, Held, Spares, CanRotate, Text;
    ApplyGood(s, e);
    if e.Flush? { FlushStep(s); }
  }

  /** The writer leaves its loop, and ends, only after a Stop; before that nothing can be lost. */
  lemma {:induction false} EndsOnlyAfterStop<T>(ss: seq<State<T>>, es: seq<Step<T>>)
    requires Run(ss, es)
    ensures var s := ss[|es|];
            && (s.running <==> forall i | 0 <= i < |es| :: !es[i].Stop?)
            && (s.pc == AtFlush || s.pc == AtEnd ==> !s.running) && (s.running ==> s.late == [])
    decreases |es|
  {
    hide Happens, Good;
    RunGood(ss, es);
    if es != [] {
      var k := |es| - 1;
      EndsOnlyAfterStop(ss[..|es|], es[..k]);
      assert Happens(ss[k], es[k], ss[k + 1]);
      StepOfRunning(ss[k], es[k], ss[k + 1]);
      assert forall i | 0 <= i < k :: es[..k][i] == es[i];
    }
    LateAtEnd(ss[|es|]);
  }

  lemma LateAtEnd<T>(s: State<T>)
    requires Good(s)
    ensures if s.pc == AtEnd then s.appended == s.written + s.late else s.late == []
  {
  }

  lemma {:induction false} AppendedGrows<T>(ss: seq<State<T>>, es: seq<Step<T>>, i: nat)
    requires Run(ss, es) && i <= |es|
    ensures ss[i].appended <= ss[|es|].appended && (ss[|es|].running ==> ss[i].running)
    decreases |es|
  {
    hide Happens;
    if i < |es| {
      var k := |es| - 1;
      AppendedGrows(ss[..|es|], es[..k], i);
      assert Happens(ss[k], es[k], ss[k + 1]);
      StepOfRunning(ss[k], es[k], ss[k + 1]);
    }
  }

  /** What had been appended at any time before Stop is written once the writer has ended. */
  lemma {:induction false} StopLosesNothing<T>(ss: seq<State<T>>, es: seq<Step<T>>, i: nat)
    requires Run(ss, es) && i <= |es| && ss[i].running && ss[|es|].pc == AtEnd
    ensures ss[i].appended <= ss[|es|].written && ss[|es|].appended == ss[|es|].written + ss[|es|].late
    decreases |es|
  {
    hide Happens, Good;
    EndsOnlyAfterStop(ss, es);
    RunGood(ss, es);
    LateAtEnd(ss[|es|]);
    if es != [] {
      var k := |es| - 1;
      assert Happens(ss[k], es[k], ss[k + 1]);
      StepOfRunning(ss[k], es[k], ss[k + 1]);
      if ss[k].pc == AtEnd {
        StopLosesNothing(ss[..|es|], es[..k], i);
      } else {
        AppendedGrows(ss[..|es|], es[..k], i);
      }
    }
  }

  /** The writer's one possible step. */
  ghost function NextStep<T>(pc: Pc): Step<T>
    requires pc != AtEnd
  {
    match pc
    case AtTest => Test
    case AtWait => Take
    case AtWrite => Write
    case AtRecycle => Recycle
    case AtFlush => Flush
  }

  /** Steps it has left once _running is false. */
  ghost function StepsLeft(pc: Pc): nat {
    match pc
    case AtWait => 5
    case AtWrite => 4
    case AtRecycle => 3
    case AtTest => 2
    case AtFlush => 1
    case AtEnd => 0
  }

  ghost function WriterSteps<T>(es: seq<Step<T>>): nat {
    if es == [] then 0 else WriterSteps(es[..|es| - 1]) + if es[|es| - 1].Append? || es[|es| - 1].Stop? then 0 else 1
  }

  /** Until it has ended the writer can always go on, in one way only. */
  lemma WriterGoesOn<T>(s: State<T>, e: Step<T>)
    requires Good(s)
    ensures Legal(s, e) && !e.Append? && !e.Stop? <==> s.pc != AtEnd && e == NextStep(s.pc)
  {
  }

  lemma StepAfterStop<T>(s: State<T>, e: Step<T>, r: State<T>)
    requires Happens(s, e, r) && !s.running
    ensures !r.running && StepsLeft(s.pc) == StepsLeft(r.pc) + if e.Append? || e.Stop? then 0 else 1
  {
    hide HeldOnce, Held, Spares, CanRotate, Text;
  }

  /** After a Stop it ends in at most five steps, whatever is appended meanwhile: one more batch, and the rest. */
  lemma {:induction false} StopEnds<T>(ss: seq<State<T>>, es: seq<Step<T>>, i: nat)
    requires Run(ss, es) && i <= |es| && !ss[i].running
    ensures !ss[|es|].running && WriterSteps(es[i..]) + StepsLeft(ss[|es|].pc) == StepsLeft(ss[i].pc) <= 5
    decreases |es|
  {
    hide Happens;
    if i < |es| {
      var k := |es| - 1;
      StopEnds(ss[..|es|], es[..k], i);
      assert es[i..][..k - i] == es[..k][i..];
      assert Happens(ss[k], es[k], ss[k + 1]);
      StepAfterStop(ss[k], es[k], ss[k + 1]);
    }
  }
}
