/**
 * The synthetic payload behind /data: a seekable byte stream of a given size whose bytes are
 * computed from the read position alone and never stored.
 */
module Content {
  import opened Wrappers
  import opened GoInt

  newtype byte = b: int | 0 <= b < 256

  /** contentCharset, "-ABCDEFGHIJKLMNOPQRSTUVWXYZ": the alphabet cycled through the interior of the payload, as ASCII codes. */
  const ContentCharset: seq<byte> := [45, 65, 66, 67, 68, 69, 70, 71, 72, 73, 74, 75, 76, 77, 78, 79, 80, 81, 82, 83, 84, 85, 86, 87, 88, 89, 90]

  /** '|': the marker written first and, once the end is reached, over the last byte of a read. */
  const Boundary: byte := 124

  /** The alphabet entry for absolute offset k: contentCharset[k % len(contentCharset)]. */
  function CharsetAt(k: nat): byte {
    ContentCharset[k % |ContentCharset|]
  }

  /** The byte the fill writes for absolute offset k, before the final stamp. */
  function FillByte(k: nat): byte {
    if k == 0 then Boundary else CharsetAt(k)
  }

  /**
   * The payload of a given size as it is meant to look: the marker at offset 0 and at offset
   * size - 1, and the alphabet entry k % 27 at every other offset k.
   */
  function Stream(size: nat): (s: seq<byte>)
    ensures |s| == size
  {
    seq(size, i requires 0 <= i < size => if i == 0 || i == size - 1 then Boundary else CharsetAt(i))
  }

  /** What one call of Read reports: io.EOF, or the bytes it put at the front of the buffer. */
  datatype ReadResult = EOF | Bytes(data: seq<byte>)

  /**
   * The outcome of Read on a reader of the given size whose cursor is at cur, into a buffer of
   * capacity cap. The test against size - 1 is the source's: a read may end at size - 1, and then
   * the stamp lands on offset size - 2 and offset size - 1 is never produced.
   */
  function ReadStep(size: int, cur: nat, cap: nat): (r: ReadResult)
    ensures r.EOF? <==> cur >= size - 1
    ensures r.Bytes? ==> |r.data| <= cap && cur + |r.data| <= size
    ensures r.Bytes? && cap > 0 ==> |r.data| > 0
    ensures r.Bytes? && |r.data| > 0 && cur + |r.data| >= size - 1 ==> r.data[|r.data| - 1] == Boundary
  {
    if cur >= size - 1 then EOF
    else if cap == 0 then Bytes([])
    else
      var n := Min(cap, size - cur);
      Bytes(Chunk(cur, n, cur + n >= size - 1))
  }

  /** The n bytes a read from offset cur writes: the fill bytes, the last one replaced by the marker when stamped. */
  function Chunk(cur: nat, n: nat, stamped: bool): (c: seq<byte>)
    ensures |c| == n
  {
    seq(n, k requires 0 <= k < n => if stamped && k == n - 1 then Boundary else FillByte(cur + k))
  }

  /** A buffer front that holds the fill bytes, with the last one stamped when the end is reached, is what ReadStep describes. */
  lemma ReadStepOfFill(size: int, cur: nat, cap: nat, written: seq<byte>)
    requires cur < size - 1 && cap > 0
    requires |written| == Min(cap, size - cur)
    requires forall k :: 0 <= k < |written| - 1 ==> written[k] == FillByte(cur + k)
    requires written[|written| - 1] ==
      if cur + |written| >= size - 1 then Boundary else FillByte(cur + |written| - 1)
    ensures ReadStep(size, cur, cap) == Bytes(written)
  {
    var n := |written|;
    var stamped := cur + n >= size - 1;
    var data := seq(n, k requires 0 <= k < n => if stamped && k == n - 1 then Boundary else FillByte(cur + k));
    assert data == written;
  }

  const SeekStart: int := 0
  const SeekCurrent: int := 1
  const SeekEnd: int := 2

  datatype SeekError = InvalidWhence | InvalidOffset

  /** The outcome of Seek: the new cursor, computed with Go's int64 wrap-around, or the error. */
  function SeekOutcome(size: Int64, cur: Int64, offset: Int64, whence: int): (r: Result<Int64, SeekError>)
    ensures r.Success? ==> r.value >= 0
    ensures r == Failure(InvalidWhence) <==> whence !in {SeekStart, SeekCurrent, SeekEnd}
  {
    var target :=
      if whence == SeekStart then Some(offset)
      else if whence == SeekCurrent then Some(Wrap64(offset + cur))
      else if whence == SeekEnd then Some(Wrap64(offset + Wrap64(size - 1)))
      else None;
    match target
    case None => Failure(InvalidWhence)
    case Some(t) => if t < 0 then Failure(InvalidOffset) else Success(t)
  }

  /** contentReader: the stream's size and the cursor that Read and Seek move. */
  class ContentReader {
    const size: Int64
    var current: Int64

    ghost predicate Valid()
      reads this
    {
      MinInt64 < size && 0 <= current
    }

    constructor (size: Int64)
      requires MinInt64 < size
      ensures Valid() && this.size == size && current == 0
    {
      this.size := size;
      current := 0;
    }

    /** io.Reader: fills the front of p; eof stands for the io.EOF error. */
    method Read(p: array<byte>) returns (n: nat, eof: bool)
      requires Valid()
      modifies this, p
      ensures Valid()
      ensures n <= p.Length && forall k :: n <= k < p.Length ==> p[k] == old(p[k])
      ensures eof ==> n == 0 && ReadStep(size, old(current), p.Length) == EOF
      ensures !eof ==> ReadStep(size, old(current), p.Length) == Bytes(p[..n])
      ensures current == old(current) + n
    {
      var length: Int64 := size - 1;
      if current >= length {
        return 0, true;
      }
      if p.Length == 0 {
        return 0, false;
      }
      ghost var start := current;
      n := 0;
      if current == 0 {
        p[n] := Boundary;
        current := current + 1;
        n := n + 1;
      }
      while n < p.Length && current <= length
        invariant 0 <= n <= p.Length
        invariant current == start + n <= size
        invariant start == 0 ==> n >= 1
        invariant forall k :: 0 <= k < n ==> p[k] == FillByte(start + k)
        invariant forall k :: n <= k < p.Length ==> p[k] == old(p[k])
      {
        p[n] := CharsetAt(current);
        current := current + 1;
        n := n + 1;
      }
      if current >= length {
        p[n - 1] := Boundary;
      }
      ghost var written := p[..n];
      ReadStepOfFill(size, start, p.Length, written);
      eof := false;
    }

    /** io.Seeker: moves the cursor relative to the start, the cursor or size - 1. */
    method Seek(offset: Int64, whence: int) returns (r: Result<Int64, SeekError>)
      requires Valid()
      modifies this
      ensures Valid()
      ensures r == SeekOutcome(size, old(current), offset, whence)
      ensures current == if r.Success? then r.value else old(current)
    {
      var target: Int64;
      if whence == SeekStart {
        target := offset;
      } else if whence == SeekCurrent {
        target := Wrap64(offset + current);
      } else if whence == SeekEnd {
        target := Wrap64(offset + Wrap64(size - 1));
      } else {
        return Failure(InvalidWhence);
      }
      if target < 0 {
        return Failure(InvalidOffset);
      }
      current := target;
      r := Success(target);
    }
  }
}
