/** net::Buffer: a byte queue in a vector, with a read and a write position. */
module NetBuffer {
  import opened Framing

  const CHEAP_PREPEND: nat := 8
  const INITIAL_SIZE: nat := 1024

  class Buffer {
    var buffer: array<byte>
    var rpos: nat
    var wpos: nat

    ghost predicate Valid()
      reads this
    {
      rpos <= wpos <= buffer.Length && CHEAP_PREPEND <= buffer.Length
    }

    /** The readable bytes. */
    ghost function Contents(): (c: seq<byte>)
      requires Valid()
      reads this, buffer
      ensures |c| == Readable()
    {
      buffer[rpos..wpos]
    }

    function Readable(): nat
      requires Valid()
      reads this
    {
      wpos - rpos
    }

    function Writable(): nat
      requires Valid()
      reads this
    {
      buffer.Length - wpos
    }

    constructor (initialSize: nat)
      ensures Valid() && fresh(buffer) && Contents() == [] && Writable() == initialSize && rpos == CHEAP_PREPEND
    {
      buffer := new byte[CHEAP_PREPEND + initialSize](_ => 0);
      rpos, wpos := CHEAP_PREPEND, CHEAP_PREPEND;
    }

    method Clear()
      requires Valid()
      modifies this`rpos, this`wpos
      ensures Valid() && Contents() == []
    {
      rpos, wpos := CHEAP_PREPEND, CHEAP_PREPEND;
    }

    /** Afterwards len more bytes fit, by growing or by moving the readable bytes back to the front; they stay the
        same. */
    method MakeSpace(len: nat)
      requires Valid()
      modifies this, buffer
      ensures Valid() && (buffer == old(buffer) || fresh(buffer))
      ensures Contents() == old(Contents()) && Writable() >= len
      ensures old(Writable()) >= len ==> buffer == old(buffer) && buffer[..] == old(buffer[..]) && wpos == old(wpos)
    {
      if Writable() >= len {
      } else if Writable() + rpos < len + CHEAP_PREPEND {
        Resize(wpos + len);
      } else {
        var oldReadable := Readable();
        MoveToFront();
        rpos := CHEAP_PREPEND;
        wpos := rpos + oldReadable;
      }
    }

    /** vector::resize to a larger size. */
    method Resize(size: nat)
      requires Valid() && size >= buffer.Length
      modifies this`buffer
      ensures fresh(buffer) && buffer.Length == size
      ensures forall k | 0 <= k < old(buffer.Length) :: buffer[k] == old(buffer[k])
    {
      var bigger := new byte[size](_ => 0);
      forall i | 0 <= i < buffer.Length {
        bigger[i] := buffer[i];
      }
      buffer := bigger;
    }

    /** std::copy of the readable bytes to an earlier position in the same vector, first byte first: the two ranges may
        overlap. */
    method MoveToFront()
      requires Valid() && CHEAP_PREPEND < rpos
      modifies buffer
      ensures buffer[CHEAP_PREPEND..CHEAP_PREPEND + Readable()] == old(Contents())
    {
      ghost var was := Contents();
      var n := Readable();
      for i := 0 to n
        invariant forall k {:trigger was[k]} | 0 <= k < i :: buffer[CHEAP_PREPEND + k] == was[k]
        invariant forall k {:trigger was[k]} | i <= k < n :: buffer[rpos + k] == was[k]
      {
        assert was[i] == buffer[rpos + i];
        buffer[CHEAP_PREPEND + i] := buffer[rpos + i];
      }
      assert forall k | 0 <= k < n :: buffer[CHEAP_PREPEND..CHEAP_PREPEND + n][k] == was[k];
    }

    method Append(data: seq<byte>)
      requires Valid()
      modifies this, buffer
      ensures Valid() && (buffer == old(buffer) || fresh(buffer))
      ensures Contents() == old(Contents()) + data
      ensures Writable() >= old(Writable()) - |data|
    {
      MakeSpace(|data|);
      CopyIn(data);
      SliceSplits(buffer[..], rpos, wpos, wpos + |data|);
      wpos := wpos + |data|;
    }

    static lemma IsSlice(s: seq<byte>, a: nat, b: nat, t: seq<byte>)
      requires a <= b <= |s| && |t| == b - a && forall i | 0 <= i < |t| :: s[a + i] == t[i]
      ensures s[a..b] == t
    {
    }

    /** Where the bytes fit in front of the readable ones. */
    method Prepend(data: seq<byte>)
      requires Valid() && |data| <= rpos
      modifies this`rpos, buffer
      ensures Valid() && Contents() == data + old(Contents())
    {
      ghost var was := Contents();
      rpos := rpos - |data|;
      forall i | 0 <= i < |data| {
        buffer[rpos + i] := data[i];
      }
      IsSlice(buffer[..], rpos, rpos + |data|, data);
      IsSlice(buffer[..], rpos + |data|, wpos, was);
      SliceSplits(buffer[..], rpos, rpos + |data|, wpos);
    }

    /** The first len bytes are read, or all there are. */
    method ReaderMove(len: nat)
      requires Valid()
      modifies this`rpos, this`wpos
      ensures Valid()
      ensures Contents() == if len < old(Readable()) then old(Contents())[len..] else []
      ensures len < old(Readable()) ==> rpos == old(rpos) + len
      ensures Writable() >= old(Writable()) || (len >= old(Readable()) && Writable() == buffer.Length - CHEAP_PREPEND)
    {
      if len < Readable() {
        rpos := rpos + len;
      } else {
        rpos, wpos := CHEAP_PREPEND, CHEAP_PREPEND;
      }
    }

    /** data is put behind the readable bytes, by append or by the operating system. */
    method CopyIn(data: seq<byte>)
      requires Valid() && |data| <= Writable()
      modifies buffer
      ensures Contents() == old(Contents()) && buffer[wpos..wpos + |data|] == data
    {
      ghost var was := Contents();
      forall i | 0 <= i < |data| {
        buffer[wpos + i] := data[i];
      }
      assert Contents() == was;
    }

    /** len bytes that lie behind the readable ones become readable. */
    method WriterMove(len: nat)
      requires Valid()
      modifies this, buffer
      ensures Valid() && (buffer == old(buffer) || fresh(buffer))
      ensures Readable() == old(Readable()) + len && old(Contents()) <= Contents()
      ensures len <= old(Writable()) ==> Contents() == old(Contents()) + old(buffer[wpos..])[..len]
    {
      ghost var was, behind := Contents(), buffer[wpos..];
      MakeSpace(len);
      if len <= |behind| {
        FirstBehind(buffer[..], wpos, len);
      }
      SliceSplits(buffer[..], rpos, wpos, wpos + len);
      wpos := wpos + len;
    }

    static lemma SliceSplits(s: seq<byte>, a: nat, b: nat, c: nat)
      requires a <= b <= c <= |s|
      ensures s[a..c] == s[a..b] + s[b..c]
    {
    }

    static lemma FirstBehind(s: seq<byte>, b: nat, len: nat)
      requires b + len <= |s|
      ensures s[b..b + len] == s[b..][..len]
    {
    }

    method Swap(rhs: Buffer)
      requires Valid() && rhs.Valid()
      modifies this, rhs
      ensures Valid() && rhs.Valid() && buffer == old(rhs.buffer) && rhs.buffer == old(buffer)
      ensures Contents() == old(rhs.Contents()) && rhs.Contents() == old(Contents())
      ensures Writable() == old(rhs.Writable()) && rhs.Writable() == old(Writable())
    {
      buffer, rhs.buffer := rhs.buffer, buffer;
      rpos, rhs.rpos := rhs.rpos, rpos;
      wpos, rhs.wpos := rhs.wpos, wpos;
    }

    /** A vector with room for reserve more bytes; the readable bytes stay the same. */
    method Shrink(reserve: nat)
      requires Valid()
      modifies this, buffer
      ensures Valid() && fresh(buffer)
      ensures Contents() == old(Contents()) && Writable() >= reserve
    {
      var other := new Buffer(INITIAL_SIZE);
      other.MakeSpace(Readable() + reserve);
      other.Append(buffer[rpos..wpos]);
      Swap(other);
    }
  }
}
