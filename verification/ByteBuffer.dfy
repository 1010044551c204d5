/** The byte buffer of the connections (buffer.h, buffer.cpp).

    Every method refines an operation on the sequence of readable bytes. The ghost field
    `demand` is the largest sum of readable and requested bytes that `ensureWritableBytes`
    was ever called with, `base` the size a buffer may have without any demand.
 */
module ByteBuffer {
  import opened Bytes

  const CHEAP_PREPEND: nat := 8
  const INITIAL_SIZE: nat := 1024
  const EXTRA_BUFFER: nat := 65536

  function Max(a: nat, b: nat): nat {
    if a < b then b else a
  }

  /** A CRLF stands at `k`. */
  predicate CrlfAt(s: seq<byte>, k: nat) {
    k + 1 < |s| && s[k] == CR && s[k + 1] == LF
  }

  /** The position of the first CRLF from `k` on, or the length. */
  function FirstCrlf(s: seq<byte>, k: nat): (r: nat)
    requires k <= |s|
    ensures k <= r <= |s|
    ensures r < |s| ==> CrlfAt(s, r)
    ensures forall j :: k <= j < r ==> !CrlfAt(s, j)
    decreases |s| - k
  {
    if k == |s| then k else if CrlfAt(s, k) then k else FirstCrlf(s, k + 1)
  }

  /** `s` with `data` written over it from `at` on. */
  function Overwritten(s: seq<byte>, at: nat, data: seq<byte>): (r: seq<byte>)
    requires at + |data| <= |s|
    ensures |r| == |s|
  {
    s[..at] + data + s[at + |data|..]
  }

  lemma OverwrittenNone(s: seq<byte>, at: nat)
    requires at <= |s|
    ensures Overwritten(s, at, []) == s
  {
  }

  lemma OverwrittenNext(s: seq<byte>, at: nat, data: seq<byte>, i: nat)
    requires at + |data| <= |s| && i < |data|
    ensures Overwritten(s, at, data[..i + 1]) == Overwritten(s, at, data[..i])[at + i := data[i]]
  {
  }

  lemma OverwrittenBehind(s: seq<byte>, from: nat, at: nat, data: seq<byte>)
    requires from <= at && at + |data| <= |s|
    ensures Overwritten(s, at, data)[from..at + |data|] == s[from..at] + data
  {
  }

  lemma OverwrittenInFront(s: seq<byte>, at: nat, data: seq<byte>, to: nat)
    requires at + |data| <= to <= |s|
    ensures Overwritten(s, at, data)[at..to] == data + s[at + |data|..to]
  {
  }

  class Buffer {
    var buffer: array<byte>
    var readerIndex: nat
    var writerIndex: nat
    ghost var demand: nat
    ghost var base: nat

    ghost predicate Valid()
      reads this, buffer
    {
      && CHEAP_PREPEND <= buffer.Length
      && readerIndex <= writerIndex <= buffer.Length
      && buffer.Length <= Max(base, 2 * demand + 7)
    }

    function Contents(): seq<byte>
      requires Valid()
      reads this, buffer
    {
      buffer[readerIndex..writerIndex]
    }

    function ReadableBytes(): nat
      requires Valid()
      reads this, buffer
    {
      writerIndex - readerIndex
    }

    function WritableBytes(): nat
      requires Valid()
      reads this, buffer
    {
      buffer.Length - writerIndex
    }

    function PrependableBytes(): nat
      reads this
    {
      readerIndex
    }

    constructor (initialSize: nat := INITIAL_SIZE)
      ensures Valid() && fresh(buffer) && Contents() == []
      ensures buffer.Length == base == CHEAP_PREPEND + initialSize && demand == 0
      ensures readerIndex == CHEAP_PREPEND
    {
      buffer := new byte[CHEAP_PREPEND + initialSize](_ => 0);
      readerIndex, writerIndex := CHEAP_PREPEND, CHEAP_PREPEND;
      demand, base := 0, CHEAP_PREPEND + initialSize;
    }

    /** `findCRLF`, as an offset into the readable bytes; the length when there is none. */
    method FindCRLF() returns (at: nat)
      requires Valid()
      ensures at == FirstCrlf(Contents(), 0)
    {
      at := 0;
      while at < writerIndex - readerIndex
        invariant at <= |Contents()| && FirstCrlf(Contents(), 0) == FirstCrlf(Contents(), at)
        decreases |Contents()| - at
      {
        if readerIndex + at + 1 < writerIndex && buffer[readerIndex + at] == CR && buffer[readerIndex + at + 1] == LF {
          return;
        }
        at := at + 1;
      }
    }

    /** `retrieve` drops bytes from the front. */
    method Retrieve(len: nat)
      requires Valid() && len <= |Contents()|
      modifies this`readerIndex, this`writerIndex
      ensures Valid() && Contents() == old(Contents())[len..]
      ensures readerIndex == if len < |old(Contents())| then old(readerIndex) + len else CHEAP_PREPEND
    {
      if len < writerIndex - readerIndex {
        readerIndex := readerIndex + len;
      } else {
        RetrieveAll();
      }
    }

    method RetrieveAll()
      requires Valid()
      modifies this`readerIndex, this`writerIndex
      ensures Valid() && Contents() == [] && readerIndex == CHEAP_PREPEND
    {
      readerIndex, writerIndex := CHEAP_PREPEND, CHEAP_PREPEND;
    }

    method RetrieveAsString(len: nat) returns (result: seq<byte>)
      requires Valid() && len <= |Contents()|
      modifies this`readerIndex, this`writerIndex
      ensures Valid() && result == old(Contents())[..len] && Contents() == old(Contents())[len..]
    {
      result := buffer[readerIndex..readerIndex + len];
      Retrieve(len);
    }

    /** `makeSpace`: grow when the room before and behind does not do, else move the bytes to the front in place.
        The source asserts there that the reader is past 8; here that is proved. */
    method MakeSpace(len: nat)
      requires Valid() && WritableBytes() < len && |Contents()| + len <= demand
      modifies this`buffer, this`readerIndex, this`writerIndex, buffer
      ensures Valid() && Contents() == old(Contents()) && WritableBytes() >= len
      ensures if old(WritableBytes() + readerIndex) < len + CHEAP_PREPEND
              then fresh(buffer) && buffer.Length == writerIndex + len && readerIndex == old(readerIndex)
              else buffer == old(buffer) && readerIndex == CHEAP_PREPEND
    {
      if buffer.Length - writerIndex + readerIndex < len + CHEAP_PREPEND {
        Resize(writerIndex + len);
      } else {
        assert CHEAP_PREPEND < readerIndex;
        var readable := writerIndex - readerIndex;
        MoveForward(readable);
        readerIndex := CHEAP_PREPEND;
        writerIndex := readerIndex + readable;
      }
    }

    /** `vector::resize` to a larger size. */
    method Resize(size: nat)
      requires readerIndex <= writerIndex <= buffer.Length <= size
      modifies this`buffer
      ensures fresh(buffer) && buffer.Length == size
      ensures buffer[..old(buffer.Length)] == old(buffer[..])
      ensures buffer[readerIndex..writerIndex] == old(buffer[readerIndex..writerIndex])
    {
      var was := buffer;
      var bigger := new byte[size](k requires 0 <= k < size reads this, was => if k < was.Length then was[k] else 0);
      buffer := bigger;
      assert forall k :: 0 <= k < was.Length ==> buffer[k] == was[k];
    }

    /** The overlapping `std::copy` towards the front loses nothing. */
    method MoveForward(readable: nat)
      requires CHEAP_PREPEND < readerIndex && readerIndex + readable <= buffer.Length
      modifies buffer
      ensures buffer[CHEAP_PREPEND..CHEAP_PREPEND + readable] == old(buffer[readerIndex..readerIndex + readable])
    {
      var i := 0;
      while i < readable
        invariant 0 <= i <= readable
        invariant buffer[CHEAP_PREPEND..CHEAP_PREPEND + i] == old(buffer[readerIndex..readerIndex + i])
        invariant buffer[readerIndex + i..] == old(buffer[readerIndex + i..])
      {
        assert buffer[readerIndex + i] == buffer[readerIndex + i..][0] == old(buffer[readerIndex + i]);
        buffer[CHEAP_PREPEND + i] := buffer[readerIndex + i];
        assert buffer[readerIndex + i + 1..] == old(buffer[readerIndex + i..])[1..];
        i := i + 1;
      }
    }

    method EnsureWritableBytes(len: nat)
      requires Valid()
      modifies this`buffer, this`readerIndex, this`writerIndex, this`demand, buffer
      ensures Valid() && Contents() == old(Contents()) && WritableBytes() >= len
      ensures demand == Max(old(demand), |Contents()| + len)
      ensures if old(WritableBytes()) >= len
              then buffer == old(buffer) && readerIndex == old(readerIndex) && buffer[..] == old(buffer[..])
              else if old(WritableBytes() + readerIndex) < len + CHEAP_PREPEND
              then fresh(buffer) && buffer.Length == writerIndex + len && readerIndex == old(readerIndex)
              else buffer == old(buffer) && readerIndex == CHEAP_PREPEND
    {
      demand := Max(demand, writerIndex - readerIndex + len);
      if buffer.Length - writerIndex < len {
        MakeSpace(len);
      }
    }

    /** `append` puts bytes behind. */
    method Append(data: seq<byte>)
      requires Valid()
      modifies this`buffer, this`readerIndex, this`writerIndex, this`demand, buffer
      ensures Valid() && Contents() == old(Contents()) + data
      ensures demand == Max(old(demand), |Contents()|)
      ensures buffer == old(buffer) || fresh(buffer)
      ensures old(WritableBytes()) >= |data| ==> buffer == old(buffer) && readerIndex == old(readerIndex)
    {
      EnsureWritableBytes(|data|);
      ghost var was := buffer[..];
      CopyIn(writerIndex, data);
      OverwrittenBehind(was, readerIndex, writerIndex, data);
      assert buffer[readerIndex..writerIndex + |data|] == buffer[..][readerIndex..writerIndex + |data|];
      writerIndex := writerIndex + |data|;
    }

    /** `std::copy` from elsewhere into the buffer. */
    method CopyIn(at: nat, data: seq<byte>)
      requires at + |data| <= buffer.Length
      modifies buffer
      ensures buffer[..] == Overwritten(old(buffer[..]), at, data)
    {
      hide Overwritten;
      var i := 0;
      OverwrittenNone(buffer[..], at);
      while i < |data|
        invariant 0 <= i <= |data|
        invariant buffer[..] == Overwritten(old(buffer[..]), at, data[..i])
      {
        OverwrittenNext(old(buffer[..]), at, data, i);
        ghost var was := buffer[..];
        buffer[at + i] := data[i];
        assert buffer[..] == was[at + i := data[i]];
        i := i + 1;
      }
      assert data[..i] == data;
    }

    /** `unwrite` takes bytes back from behind. */
    method Unwrite(len: nat)
      requires Valid() && len <= |Contents()|
      modifies this`writerIndex
      ensures Valid() && Contents() == old(Contents())[..|old(Contents())| - len]
    {
      writerIndex := writerIndex - len;
    }

    /** `prepend` puts bytes in front, as far as there is room. */
    method Prepend(data: seq<byte>)
      requires Valid() && |data| <= PrependableBytes()
      modifies this`readerIndex, buffer
      ensures Valid() && Contents() == data + old(Contents())
    {
      readerIndex := readerIndex - |data|;
      ghost var was := buffer[..];
      CopyIn(readerIndex, data);
      OverwrittenInFront(was, readerIndex, data, writerIndex);
      assert buffer[readerIndex..writerIndex] == buffer[..][readerIndex..writerIndex];
    }

    /** `swap` */
    method Swap(rhs: Buffer)
      requires Valid() && rhs.Valid() && (rhs == this || rhs.buffer != buffer)
      modifies this, rhs
      ensures Valid() && rhs.Valid() && Contents() == old(rhs.Contents()) && rhs.Contents() == old(Contents())
      ensures buffer == old(rhs.buffer) && rhs.buffer == old(buffer)
      ensures readerIndex == old(rhs.readerIndex) && rhs.readerIndex == old(readerIndex)
      ensures demand == rhs.demand == Max(old(demand), old(rhs.demand)) && base == rhs.base == Max(old(base), old(rhs.base))
    {
      buffer, rhs.buffer := rhs.buffer, buffer;
      readerIndex, rhs.readerIndex := rhs.readerIndex, readerIndex;
      writerIndex, rhs.writerIndex := rhs.writerIndex, writerIndex;
      demand := Max(demand, rhs.demand);
      base := Max(base, rhs.base);
      rhs.demand, rhs.base := demand, base;
    }

    /** `shrink` moves the readable bytes to a new buffer with room for `reserve` more. */
    method Shrink(reserve: nat)
      requires Valid()
      modifies this, buffer
      ensures Valid() && Contents() == old(Contents()) && fresh(buffer)
      ensures WritableBytes() >= reserve && readerIndex == CHEAP_PREPEND
      ensures demand == Max(old(demand), |Contents()| + reserve)
      ensures base == Max(old(base), CHEAP_PREPEND + INITIAL_SIZE)
      ensures buffer.Length == Max(CHEAP_PREPEND + INITIAL_SIZE, CHEAP_PREPEND + |Contents()| + reserve)
    {
      var other := new Buffer();
      other.EnsureWritableBytes(writerIndex - readerIndex + reserve);
      other.Append(buffer[readerIndex..writerIndex]);
      Swap(other);
    }

    /** `readFd`: `n` and `data` are what `readv` returns and delivers; the kernel fills the writable
        bytes first and the extra buffer then. */
    method ReadFd(n: int, data: seq<byte>) returns (r: int)
      requires Valid() && (n >= 0 ==> |data| == n)
      requires n <= if WritableBytes() < EXTRA_BUFFER then WritableBytes() + EXTRA_BUFFER else WritableBytes()
      modifies this`buffer, this`readerIndex, this`writerIndex, this`demand, buffer
      ensures Valid() && r == n
      ensures Contents() == if n < 0 then old(Contents()) else old(Contents()) + data
      ensures buffer == old(buffer) || fresh(buffer)
      ensures demand == if n > old(WritableBytes()) then Max(old(demand), |Contents()|) else old(demand)
    {
      var writable := buffer.Length - writerIndex;
      r := n;
      if n < 0 {
        return;
      }
      var first := if n <= writable then n else writable;
      ghost var was := buffer[..];
      CopyIn(writerIndex, data[..first]);
      OverwrittenBehind(was, readerIndex, writerIndex, data[..first]);
      assert buffer[readerIndex..writerIndex + first] == buffer[..][readerIndex..writerIndex + first];
      writerIndex := writerIndex + first;
      assert Contents() == old(Contents()) + data[..first];
      if n > writable {
        var extrabuf := data[writable..];
        Append(extrabuf);
        assert old(Contents()) + data[..writable] + extrabuf == old(Contents()) + data;
      } else {
        assert data[..first] == data;
      }
    }
  }
}
