/** Messages as frames: two length bytes, low byte first, then the message. */
module Framing {

  type byte = b: int | 0 <= b < 256

  /** A message whose length fits the uint16 in front of it. */
  type Msg = m: seq<byte> | |m| < 0x1_0000 witness []

  const HEAD: nat := 2

  function Head(n: nat): (h: seq<byte>)
    requires n < 0x1_0000
    ensures |h| == 2 && h[0] as int + 0x100 * h[1] as int == n
  {
    [n % 256, n / 256]
  }

  function HeadValue(h: seq<byte>): (n: nat)
    requires |h| >= 2
    ensures n < 0x1_0000
  {
    h[0] as int + 256 * h[1] as int
  }

  function Frame(m: Msg): (f: seq<byte>)
    ensures |f| == |m| + 2 && HeadValue(f) == |m| && f[2..] == m
  {
    Head(|m|) + m
  }

  function Stream(ms: seq<Msg>): seq<byte> {
    if ms == [] then [] else Frame(ms[0]) + Stream(ms[1..])
  }

  /** Whether bytes starts with a whole frame. */
  predicate HasFrame(bytes: seq<byte>) {
    |bytes| >= 2 && |bytes| >= HeadValue(bytes) + 2
  }

  /** Whether bytes starts with a head that gives limit or more. */
  predicate TooLong(bytes: seq<byte>, limit: nat) {
    |bytes| >= 2 && HeadValue(bytes) >= limit
  }

  function FirstMsg(bytes: seq<byte>): Msg
    requires HasFrame(bytes)
  {
    bytes[2..HeadValue(bytes) + 2]
  }

  lemma {:induction false} StreamOneMore(ms: seq<Msg>, m: Msg)
    ensures Stream(ms + [m]) == Stream(ms) + Frame(m)
  {
    if ms == [] {
      assert Stream([m]) == Frame(m) + Stream([]);
    } else {
      StreamOneMore(ms[1..], m);
      assert (ms + [m])[1..] == ms[1..] + [m];
      assert Stream(ms + [m]) == Frame(ms[0]) + (Stream(ms[1..]) + Frame(m));
    }
  }

  lemma Regroup(a: seq<byte>, b: seq<byte>, c: seq<byte>)
    ensures a + b + c == a + (b + c)
  {
  }

  lemma FirstFrame(ms: seq<Msg>)
    requires ms != []
    ensures Stream(ms) == Frame(ms[0]) + Stream(ms[1..])
  {
  }

  lemma {:induction false} StreamSplit(ms: seq<Msg>, k: nat)
    requires k <= |ms|
    ensures Stream(ms) == Stream(ms[..k]) + Stream(ms[k..])
    decreases |ms| - k
  {
    if k == |ms| {
      assert ms[..k] == ms && ms[k..] == [];
    } else {
      hide Frame, Stream;
      StreamSplit(ms, k + 1);
      assert ms[..k + 1] == ms[..k] + [ms[k]] && ms[k..][1..] == ms[k + 1..];
      StreamOneMore(ms[..k], ms[k]);
      FirstFrame(ms[k..]);
      Regroup(Stream(ms[..k]), Frame(ms[k]), Stream(ms[k + 1..]));
    }
  }

  /** Two streams whose first frames start the same bytes start with the same message. */
  lemma SameHead(m: Msg, n: Msg, rest: seq<byte>, more: seq<byte>)
    requires Frame(m) + rest == Frame(n) + more || Frame(m) + rest <= Frame(n) + more
    ensures m == n && (rest == more || rest <= more)
  {
    var f, g := Frame(m) + rest, Frame(n) + more;
    assert f[0] == g[0] && f[1] == g[1];
    assert HeadValue(Frame(m)) == HeadValue(Frame(n));
    assert f[2..][..|m|] == m;
    assert g[2..][..|m|] == n;
    assert f[|m| + 2..] == rest;
    assert g[|m| + 2..] == more;
  }

  lemma StartsWithFrame(ms: seq<Msg>)
    requires ms != []
    ensures HasFrame(Stream(ms)) && FirstMsg(Stream(ms)) == ms[0]
  {
  }

  /** Bytes decode in one way only: if the frames of ds begin the stream of ms, then ds begins ms. */
  lemma {:induction false} DecodesUniquely(ds: seq<Msg>, ms: seq<Msg>)
    requires Stream(ds) <= Stream(ms)
    ensures ds <= ms
    decreases |ds|
  {
    if ds != [] {
      StartsWithFrame(ds);
      SameHead(ds[0], ms[0], Stream(ds[1..]), Stream(ms[1..]));
      DecodesUniquely(ds[1..], ms[1..]);
      assert ds == [ds[0]] + ds[1..];
    }
  }

  /** A receiver that has every byte of ms, has taken ds off and sees no further frame, has every message. */
  lemma {:induction false} NothingLeftOver(ds: seq<Msg>, tail: seq<byte>, ms: seq<Msg>)
    requires Stream(ds) + tail == Stream(ms) && !HasFrame(tail)
    ensures ds == ms && tail == []
    decreases |ds|
  {
    if ds == [] {
      assert tail == Stream(ms);
      assert ms != [] ==> HasFrame(Stream(ms)) by {
        if ms != [] { StartsWithFrame(ms); }
      }
    } else {
      StartsWithFrame(ds);
      assert Stream(ds) + tail == Frame(ds[0]) + (Stream(ds[1..]) + tail);
      SameHead(ds[0], ms[0], Stream(ds[1..]) + tail, Stream(ms[1..]));
      assert |Stream(ds[1..]) + tail| == |Stream(ms[1..])|;
      NothingLeftOver(ds[1..], tail, ms[1..]);
      assert ds == [ds[0]] + ds[1..];
    }
  }
}
