/**
 * What the content reader delivers: byte by byte for one call, for any sequence of calls, for a
 * consumer that reads with one buffer until end of stream, and what Seek computes.
 */
module ContentProperties {
  import opened Wrappers
  import opened GoInt
  import opened Content

  /**
   * One read from offset cur yields the payload's bytes at offsets cur .. cur + n - 1, except when
   * it stops exactly at size - 1: then its last byte, offset size - 2, is the marker.
   */
  lemma ReadStepBytes(size: int, cur: nat, cap: nat)
    requires cur < size - 1 && cap > 0
    ensures var n := Min(cap, size - cur);
      ReadStep(size, cur, cap) ==
        Bytes(if cur + n == size - 1 then Stream(size)[cur..size - 2] + [Boundary]
              else Stream(size)[cur..cur + n])
  {
    var n := Min(cap, size - cur);
    var stamped := cur + n >= size - 1;
    var c := Chunk(cur, n, stamped);
    var whole := Stream(size);
    assert ReadStep(size, cur, cap) == Bytes(c);
    var t := if cur + n == size - 1 then whole[cur..size - 2] + [Boundary] else whole[cur..cur + n];
    forall k | 0 <= k < n
      ensures c[k] == t[k]
    {
      ChunkMatchesStream(size, cur, n, k);
    }
    assert c == t;
  }

  /** Byte k of a read of n bytes from cur, compared with the payload at offset cur + k. */
  lemma ChunkMatchesStream(size: int, cur: nat, n: nat, k: nat)
    requires cur < size - 1 && 0 < n && cur + n <= size && k < n
    ensures var c := Chunk(cur, n, cur + n >= size - 1);
      if cur + n == size - 1 then c[k] == (Stream(size)[cur..size - 2] + [Boundary])[k]
      else c[k] == Stream(size)[cur + k]
  {
    var c := Chunk(cur, n, cur + n >= size - 1);
    var whole := Stream(size);
    assert c[k] == if cur + n >= size - 1 && k == n - 1 then Boundary else FillByte(cur + k);
    assert whole[cur + k] == if cur + k == 0 || cur + k == size - 1 then Boundary else CharsetAt(cur + k);
    if cur + n == size - 1 && k < n - 1 {
      assert (whole[cur..size - 2] + [Boundary])[k] == whole[cur + k];
    }
  }

  /** No entry of the alphabet is the marker. */
  lemma CharsetAvoidsBoundary(i: nat)
    requires i < |ContentCharset|
    ensures ContentCharset[i] != Boundary
  {
  }

  /** A reader of size 2 or more read with a buffer that can hold it all: the whole payload, then EOF. */
  lemma SingleReadIsWholeStream(size: nat, cap: nat, cap': nat)
    requires size >= 2 && cap >= size
    ensures ReadStep(size, 0, cap) == Bytes(Stream(size))
    ensures ReadStep(size, size, cap') == EOF
    ensures Stream(size)[0] == Boundary && Stream(size)[size - 1] == Boundary
  {
    ReadStepBytes(size, 0, cap);
    assert Stream(size)[0..size] == Stream(size);
  }

  /**
   * A read that fills its buffer with the cursor landing on size - 1 stamps offset size - 2, which
   * for a size of 3 or more is not the payload's byte there, and the next read is EOF: offset
   * size - 1 is never delivered.
   */
  lemma ReadEndingAtLastIndex(size: int, cur: nat, cap: nat, cap': nat)
    requires cur < size - 1 && cur + cap == size - 1
    ensures ReadStep(size, cur, cap) == Bytes(Stream(size)[cur..size - 2] + [Boundary])
    ensures ReadStep(size, size - 1, cap') == EOF
    ensures size >= 3 ==> Stream(size)[size - 2] != Boundary
  {
    ReadStepBytes(size, cur, cap);
    if size >= 3 {
      CharsetAvoidsBoundary((size - 2) % |ContentCharset|);
    }
  }

  /** The bytes collected by reading with buffers of the given capacities, one call each, and the cursor after. */
  datatype Collected = Collected(bytes: seq<byte>, cursor: nat)

  function Drain(size: int, cur: nat, caps: seq<nat>): (c: Collected)
    ensures c.cursor == cur + |c.bytes|
    ensures c.cursor <= if cur >= size then cur else size
    decreases |caps|
  {
    if caps == [] then Collected([], cur)
    else
      match ReadStep(size, cur, caps[0])
      case EOF => Drain(size, cur, caps[1..])
      case Bytes(d) =>
        var rest := Drain(size, cur + |d|, caps[1..]);
        Collected(d + rest.bytes, rest.cursor)
  }

  /**
   * What a consumer that started at offset 0 holds once it has m bytes: the first m bytes of the
   * payload, except that at m == size - 1 the last of them is the marker.
   */
  function DeliveredPrefix(size: nat, m: nat): (out: seq<byte>)
    requires size >= 2 && m <= size
    ensures |out| == m
  {
    if m == size - 1 then Stream(size)[..size - 2] + [Boundary] else Stream(size)[..m]
  }

  lemma ReadStepExtendsPrefix(size: nat, cur: nat, cap: nat)
    requires size >= 2 && cur <= size && ReadStep(size, cur, cap).Bytes?
    ensures DeliveredPrefix(size, cur) + ReadStep(size, cur, cap).data ==
      DeliveredPrefix(size, cur + |ReadStep(size, cur, cap).data|)
  {
    if cap > 0 {
      ReadStepBytes(size, cur, cap);
      var whole := Stream(size);
      var n := Min(cap, size - cur);
      if cur + n == size - 1 {
        assert whole[..cur] + (whole[cur..size - 2] + [Boundary]) == whole[..size - 2] + [Boundary];
      } else {
        assert whole[..cur] + whole[cur..cur + n] == whole[..cur + n];
      }
    } else {
      assert DeliveredPrefix(size, cur) + [] == DeliveredPrefix(size, cur);
    }
  }

  lemma {:induction false} DrainExtendsPrefix(size: nat, cur: nat, caps: seq<nat>)
    requires size >= 2 && cur <= size
    ensures DeliveredPrefix(size, cur) + Drain(size, cur, caps).bytes == DeliveredPrefix(size, Drain(size, cur, caps).cursor)
    decreases |caps|
  {
    if caps == [] {
      assert DeliveredPrefix(size, cur) + [] == DeliveredPrefix(size, cur);
    } else {
      var step := ReadStep(size, cur, caps[0]);
      if step.EOF? {
        assert Drain(size, cur, caps) == Drain(size, cur, caps[1..]);
        DrainExtendsPrefix(size, cur, caps[1..]);
      } else {
        var next := cur + |step.data|;
        var rest := Drain(size, next, caps[1..]);
        assert Drain(size, cur, caps) == Collected(step.data + rest.bytes, rest.cursor);
        ReadStepExtendsPrefix(size, cur, caps[0]);
        DrainExtendsPrefix(size, next, caps[1..]);
        Associative(DeliveredPrefix(size, cur), step.data, rest.bytes);
      }
    }
  }

  /**
   * However a fresh reader of size 2 or more is chunked, what has been read is determined by its
   * length alone: a prefix of the payload, the whole payload, or, at size - 1 bytes, the payload
   * cut short with the marker one byte early. The cursor equals the number of bytes read.
   */
  lemma DrainFromStart(size: nat, caps: seq<nat>)
    requires size >= 2
    ensures var c := Drain(size, 0, caps); c.cursor == |c.bytes| <= size && c.bytes == DeliveredPrefix(size, |c.bytes|)
  {
    DrainExtendsPrefix(size, 0, caps);
    assert DeliveredPrefix(size, 0) == [];
  }

  /** The output depends on the chunking: size 5 read as 4 + 1 gives "|AB|", read at once "|ABC|". */
  lemma ChunkingChangesOutput()
    ensures Drain(5, 0, [4, 1]).bytes == [124, 65, 66, 124]
    ensures Drain(5, 0, [5]).bytes == [124, 65, 66, 67, 124]
  {
    var whole := Stream(5);
    assert |ContentCharset| == 27;
    assert CharsetAt(1) == 65 && CharsetAt(2) == 66 && CharsetAt(3) == 67;
    assert whole[0] == 124 && whole[1] == 65 && whole[2] == 66 && whole[3] == 67 && whole[4] == 124;
    ReadEndingAtLastIndex(5, 0, 4, 1);
    assert Drain(5, 4, [1]) == Drain(5, 4, []);
    SingleReadIsWholeStream(5, 5, 0);
  }

  /** A consumer that calls Read with one buffer of capacity cap until EOF, the way io.Copy drives a reader. */
  function ReadToEof(size: int, cur: nat, cap: nat): seq<byte>
    requires cap > 0
    decreases size - cur
  {
    match ReadStep(size, cur, cap)
    case EOF => []
    case Bytes(d) => d + ReadToEof(size, cur + |d|, cap)
  }

  /** One round of the consumer: the bytes of the first read, then whatever follows from the new cursor. */
  lemma ReadToEofStep(size: nat, cur: nat, cap: nat)
    requires cap > 0 && cur < size - 1
    ensures var n := Min(cap, size - cur);
      ReadToEof(size, cur, cap) ==
        (if cur + n == size - 1 then Stream(size)[cur..size - 2] + [Boundary] else Stream(size)[cur..cur + n])
        + ReadToEof(size, cur + n, cap)
  {
    ReadStepBytes(size, cur, cap);
  }

  /** Whether reading from cur in steps of cap lands exactly on size - 1. */
  predicate LandsOnLastIndex(size: int, cur: nat, cap: nat)
    requires cap > 0
    decreases size - cur
  {
    if cur + cap < size - 1 then LandsOnLastIndex(size, cur + cap, cap) else cur + cap == size - 1
  }

  /** The consumer's last round, the one that reaches size - 1 or size. */
  lemma ReadToEofLast(size: nat, cur: nat, cap: nat)
    requires size >= 2 && cap > 0 && cur < size - 1 && cur + cap >= size - 1
    ensures ReadToEof(size, cur, cap) ==
      if cur + cap == size - 1 then Stream(size)[cur..size - 2] + [Boundary] else Stream(size)[cur..]
  {
    ReadToEofStep(size, cur, cap);
    var whole := Stream(size);
    if cur + cap == size - 1 {
      assert ReadToEof(size, size - 1, cap) == [];
      assert whole[cur..size - 2] + [Boundary] + [] == whole[cur..size - 2] + [Boundary];
    } else {
      assert ReadToEof(size, size, cap) == [];
      assert whole[cur..size] + [] == whole[cur..];
    }
  }

  lemma {:induction false} ReadToEofFrom(size: nat, cur: nat, cap: nat)
    requires size >= 2 && cap > 0 && cur < size - 1
    ensures ReadToEof(size, cur, cap) ==
      if LandsOnLastIndex(size, cur, cap) then Stream(size)[cur..size - 2] + [Boundary]
      else Stream(size)[cur..]
    decreases size - cur
  {
    var next := cur + cap;
    if next < size - 1 {
      ReadToEofStep(size, cur, cap);
      assert Min(cap, size - cur) == cap;
      ReadToEofFrom(size, next, cap);
      assert LandsOnLastIndex(size, cur, cap) == LandsOnLastIndex(size, next, cap);
      Glue(Stream(size), size, cur, next, ReadToEof(size, cur, cap), ReadToEof(size, next, cap), LandsOnLastIndex(size, next, cap));
    } else {
      ReadToEofLast(size, cur, cap);
    }
  }

  /** Bytes cur .. next of the payload followed by its tail from next form its tail from cur. */
  lemma Glue(whole: seq<byte>, size: nat, cur: nat, next: nat, x: seq<byte>, rest: seq<byte>, marked: bool)
    requires |whole| == size && cur <= next && next + 2 <= size
    requires x == whole[cur..next] + rest
    requires rest == if marked then whole[next..size - 2] + [Boundary] else whole[next..]
    ensures x == if marked then whole[cur..size - 2] + [Boundary] else whole[cur..]
  {
    if marked {
      Slices(whole, cur, next, size - 2);
    } else {
      Slices(whole, cur, next, size);
      assert whole[next..] == whole[next..size];
      assert whole[cur..] == whole[cur..size];
    }
  }

  /** Steps of cap from a multiple of cap land on size - 1 exactly when cap divides size - 1. */
  lemma {:induction false} LandsOnLastIndexIff(size: nat, q: nat, cap: nat)
    requires size >= 2 && cap > 0 && q * cap < size - 1
    ensures LandsOnLastIndex(size, q * cap, cap) <==> (size - 1) % cap == 0
    decreases size - q * cap
  {
    var cur := q * cap;
    assert cur + cap == (q + 1) * cap;
    if cur + cap < size - 1 {
      LandsOnLastIndexIff(size, q + 1, cap);
    } else if cur + cap == size - 1 {
      DivMod(q + 1, cap, 0);
    } else {
      DivMod(q, cap, size - 1 - cur);
    }
  }

  lemma Associative(a: seq<byte>, b: seq<byte>, c: seq<byte>)
    ensures a + (b + c) == (a + b) + c
  {
  }

  lemma Slices(s: seq<byte>, a: nat, b: nat, c: nat)
    requires a <= b <= c <= |s|
    ensures s[a..b] + s[b..c] == s[a..c]
    ensures s[a..b] + (s[b..c] + [Boundary]) == s[a..c] + [Boundary]
  {
  }

  /** Euclidean division of q * cap + r by cap, for 0 <= r < cap. */
  lemma DivMod(q: nat, cap: nat, r: nat)
    requires cap > 0 && r < cap
    ensures (q * cap + r) / cap == q && (q * cap + r) % cap == r
  {
    var x := q * cap + r;
    var p, m := x / cap, x % cap;
    assert p * cap + m == q * cap + r;
    if p > q {
      assert p * cap >= (q + 1) * cap by { MulMono(q + 1, p, cap); }
    } else if p < q {
      assert q * cap >= (p + 1) * cap by { MulMono(p + 1, q, cap); }
    }
  }

  lemma MulMono(a: nat, b: nat, c: nat)
    requires a <= b
    ensures a * c <= b * c
  {
  }

  /**
   * Reading a fresh reader of size 2 or more to the end with one buffer of capacity cap yields the
   * whole payload unless cap divides size - 1; then the last byte is missing and the one before it
   * is the marker.
   */
  lemma ReadToEofFromStart(size: nat, cap: nat)
    requires size >= 2 && cap > 0
    ensures ReadToEof(size, 0, cap) ==
      if (size - 1) % cap == 0 then Stream(size)[..size - 2] + [Boundary] else Stream(size)
    ensures |ReadToEof(size, 0, cap)| == if (size - 1) % cap == 0 then size - 1 else size
  {
    ReadToEofFrom(size, 0, cap);
    LandsOnLastIndexIff(size, 0, cap);
    assert Stream(size)[0..] == Stream(size);
  }

  /** Without int64 overflow, Seek targets offset, cursor + offset or size - 1 + offset, and fails exactly on a negative target. */
  lemma SeekArithmetic(size: Int64, cur: Int64, offset: Int64, whence: int)
    requires MinInt64 < size && whence in {SeekStart, SeekCurrent, SeekEnd}
    requires var base := if whence == SeekStart then 0 else if whence == SeekCurrent then cur else size - 1;
      MinInt64 <= base + offset <= MaxInt64
    ensures var target := offset + (if whence == SeekStart then 0 else if whence == SeekCurrent then cur else size - 1);
      SeekOutcome(size, cur, offset, whence) ==
        if target < 0 then Failure(InvalidOffset) else Success(target)
  {
  }

  /** Seek(0, io.SeekEnd) reports size - 1, one less than the size, and leaves nothing to read. */
  lemma SeekToEnd(size: Int64, cur: Int64, cap: nat)
    requires size >= 1
    ensures SeekOutcome(size, cur, 0, SeekEnd) == Success(size - 1)
    ensures ReadStep(size, size - 1, cap) == EOF
  {
  }

  /** Going forward by MaxInt64 from cursor 1 wraps to MinInt64 and is rejected as a negative offset. */
  lemma SeekOverflowIsRejected(size: Int64)
    ensures SeekOutcome(size, 1, MaxInt64, SeekCurrent) == Failure(InvalidOffset)
  {
  }

  /**
   * Reading a fresh reader with a buffer that holds it all, reading again, seeking to the start and
   * reading once more: the first and the last read both deliver the payload, the middle one is EOF.
   */
  method ReplayFromStart(size: Int64, cap: nat) returns (first: seq<byte>, drained: bool, second: seq<byte>)
    requires size >= 2 && cap >= size
    ensures first == Stream(size) && second == Stream(size)
    ensures drained
  {
    var reader := new ContentReader(size);
    var buffer := new byte[cap];
    var n, eof := reader.Read(buffer);
    SingleReadIsWholeStream(size, cap, cap);
    first := buffer[..n];
    var n', eof' := reader.Read(buffer);
    drained := eof';
    var pos := reader.Seek(0, SeekStart);
    n, eof := reader.Read(buffer);
    second := buffer[..n];
  }

  /**
   * Seeking to first and reading count bytes delivers the payload's offsets first .. first + count - 1
   * (cut at the end), provided the read does not stop exactly at size - 1.
   */
  method ReadRange(size: Int64, first: Int64, count: nat) returns (bytes: seq<byte>)
    requires 0 <= first < size - 1 && count > 0 && first + count != size - 1
    ensures bytes == Stream(size)[first..Min(first + count, size)]
  {
    var reader := new ContentReader(size);
    var pos := reader.Seek(first, SeekStart);
    var buffer := new byte[count];
    var n, eof := reader.Read(buffer);
    ReadStepBytes(size, first, count);
    bytes := buffer[..n];
  }
}
