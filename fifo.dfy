/** The byte FIFO of the test program's support library (BFifoBytes): a ring
    buffer with a write and a read position, written and read in chunks that
    stop at the end of the buffer. */
module BeamLib {
  import opened Words

  /** The position reached from p after m single-byte steps around a ring of n bytes. */
  function Adv(p: nat, m: nat, n: nat): (r: nat)
    requires p < n
    ensures r < n
    decreases m
  {
    if m == 0 then p else Adv(if p + 1 == n then 0 else p + 1, m - 1, n)
  }

  /** At most one turn round the ring: the position is p + m, less n once it passes the end. */
  lemma {:induction false} AdvClosed(p: nat, m: nat, n: nat)
    requires p < n && m <= n
    ensures Adv(p, m, n) == if p + m < n then p + m else p + m - n
    decreases m
  {
    if m > 0 {
      AdvClosed(if p + 1 == n then 0 else p + 1, m - 1, n);
    }
  }

  lemma {:induction false} AdvAdd(p: nat, a: nat, b: nat, n: nat)
    requires p < n
    ensures Adv(Adv(p, a, n), b, n) == Adv(p, a + b, n)
    decreases a
  {
    if a > 0 {
      AdvAdd(if p + 1 == n then 0 else p + 1, a - 1, b, n);
    }
  }

  /** Distinct step counts below n lead to distinct positions. */
  lemma AdvInjective(p: nat, a: nat, b: nat, n: nat)
    requires p < n && a < n && b < n
    requires Adv(p, a, n) == Adv(p, b, n)
    ensures a == b
  {
    AdvClosed(p, a, n);
    AdvClosed(p, b, n);
  }

  lemma RingDistance(r: nat, w: nat, n: nat)
    ensures r < n && w < n ==> Adv(r, if r <= w then w - r else n - r + w, n) == w
  {
    if r < n && w < n {
      AdvClosed(r, if r <= w then w - r else n - r + w, n);
    }
  }

  /** The ring after writing the bytes of d one at a time from position w:
      the reference definition of a FIFO write. */
  function WriteSpec(buf: seq<Byte>, w: nat, d: seq<Byte>): (r: seq<Byte>)
    requires w < |buf|
    ensures |r| == |buf|
    decreases |d|
  {
    if d == [] then buf else WriteSpec(buf[w := d[0]], Adv(w, 1, |buf|), d[1..])
  }

  /** The m bytes met reading the ring one at a time from position r:
      the reference definition of a FIFO read. */
  function ReadSpec(buf: seq<Byte>, r: nat, m: nat): (out: seq<Byte>)
    requires r < |buf|
    ensures |out| == m
    decreases m
  {
    if m == 0 then [] else [buf[r]] + ReadSpec(buf, Adv(r, 1, |buf|), m - 1)
  }

  lemma {:induction false} WriteSpecAppend(buf: seq<Byte>, w: nat, a: seq<Byte>, b: seq<Byte>)
    requires w < |buf|
    ensures WriteSpec(buf, w, a + b) == WriteSpec(WriteSpec(buf, w, a), Adv(w, |a|, |buf|), b)
    decreases |a|
  {
    if a != [] {
      var w1 := Adv(w, 1, |buf|);
      assert (a + b)[0] == a[0];
      assert (a + b)[1..] == a[1..] + b;
      assert WriteSpec(buf, w, a + b) == WriteSpec(buf[w := a[0]], w1, a[1..] + b);
      assert WriteSpec(buf, w, a) == WriteSpec(buf[w := a[0]], w1, a[1..]);
      WriteSpecAppend(buf[w := a[0]], w1, a[1..], b);
      AdvAdd(w, 1, |a| - 1, |buf|);
      assert Adv(w1, |a[1..]|, |buf[w := a[0]]|) == Adv(w, |a|, |buf|);
    } else {
      assert a + b == b;
    }
  }

  /** A write that does not pass the end of the ring is a single block copy. */
  /** Writing one byte, in terms of the untouched parts on either side. */
  lemma UpdateSplits(buf: seq<Byte>, w: nat, x: Byte, e: nat)
    requires w < e <= |buf|
    ensures buf[w := x][..w + 1] == buf[..w] + [x]
    ensures buf[w := x][e..] == buf[e..]
  {
  }

  lemma {:induction false} WriteSpecChunk(buf: seq<Byte>, w: nat, c: seq<Byte>)
    requires w < |buf| && w + |c| <= |buf|
    ensures WriteSpec(buf, w, c) == buf[..w] + c + buf[w + |c|..]
    decreases |c|
  {
    if c != [] {
      var buf1 := buf[w := c[0]];
      var w1 := Adv(w, 1, |buf|);
      assert WriteSpec(buf, w, c) == WriteSpec(buf1, w1, c[1..]);
      UpdateSplits(buf, w, c[0], w + |c|);
      if |c| == 1 {
        assert WriteSpec(buf1, w1, c[1..]) == buf1;
        assert buf1 == buf1[..w + 1] + buf1[w + 1..];
      } else {
        AdvClosed(w, 1, |buf|);
        WriteSpecChunk(buf1, w + 1, c[1..]);
        assert (buf[..w] + [c[0]]) + c[1..] == buf[..w] + c;
      }
    }
  }

  lemma {:induction false} ReadSpecAppend(buf: seq<Byte>, r: nat, a: nat, b: nat)
    requires r < |buf|
    ensures ReadSpec(buf, r, a + b) == ReadSpec(buf, r, a) + ReadSpec(buf, Adv(r, a, |buf|), b)
    decreases a
  {
    if a > 0 {
      ReadSpecAppend(buf, Adv(r, 1, |buf|), a - 1, b);
      AdvAdd(r, 1, a - 1, |buf|);
    }
  }

  /** A read that does not pass the end of the ring is a single block copy. */
  lemma {:induction false} ReadSpecChunk(buf: seq<Byte>, r: nat, k: nat)
    requires r < |buf| && r + k <= |buf|
    ensures ReadSpec(buf, r, k) == buf[r..r + k]
    decreases k
  {
    if k > 0 {
      var r1 := Adv(r, 1, |buf|);
      assert ReadSpec(buf, r, k) == [buf[r]] + ReadSpec(buf, r1, k - 1);
      if k == 1 {
        assert buf[r..r + k] == [buf[r]];
      } else {
        AdvClosed(r, 1, |buf|);
        ReadSpecChunk(buf, r + 1, k - 1);
        assert buf[r..r + k] == [buf[r]] + buf[r + 1..r + k];
      }
    }
  }

  /** Byte k of a read is the byte k steps after the read position. */
  lemma {:induction false} ReadSpecAt(buf: seq<Byte>, r: nat, m: nat, k: nat)
    requires r < |buf| && k < m
    ensures ReadSpec(buf, r, m)[k] == buf[Adv(r, k, |buf|)]
    decreases k
  {
    if k > 0 {
      ReadSpecAt(buf, Adv(r, 1, |buf|), m - 1, k - 1);
      AdvAdd(r, 1, k - 1, |buf|);
    }
  }

  /** A write of at most a ring's worth of bytes puts byte m of d m steps after
      the write position and leaves the positions it does not reach unchanged. */
  lemma {:induction false} WriteSpecAt(buf: seq<Byte>, w: nat, d: seq<Byte>, m: nat)
    requires w < |buf| && |d| <= |buf| && m < |buf|
    ensures WriteSpec(buf, w, d)[Adv(w, m, |buf|)] == if m < |d| then d[m] else buf[Adv(w, m, |buf|)]
    decreases |d|
  {
    var n := |buf|;
    if d != [] {
      var w1 := Adv(w, 1, n);
      var buf1 := buf[w := d[0]];
      if m == 0 {
        AdvAdd(w, 1, n - 1, n);
        AdvClosed(w, n, n);
        WriteSpecAt(buf1, w1, d[1..], n - 1);
      } else {
        AdvAdd(w, 1, m - 1, n);
        AdvClosed(w, m, n);
        WriteSpecAt(buf1, w1, d[1..], m - 1);
      }
    }
  }

  /** A write that fits in the free space leaves the queued byte j steps after r as it was:
      that position is n - k + j steps after w, beyond the bytes written. */
  lemma WriteMissesQueued(buf: seq<Byte>, r: nat, w: nat, k: nat, d: seq<Byte>, j: nat)
    requires r < |buf| && j < k < |buf| && w == Adv(r, k, |buf|)
    requires |d| <= |buf| - 1 - k
    ensures WriteSpec(buf, w, d)[Adv(r, j, |buf|)] == buf[Adv(r, j, |buf|)]
  {
    var n := |buf|;
    AdvAdd(r, k, n - k + j, n);
    AdvAdd(r, n, j, n);
    AdvClosed(r, n, n);
    WriteSpecAt(buf, w, d, n - k + j);
  }

  /** The FIFO round trip: with the queued bytes running from r for k steps up
      to w, writing d when it fits in the free space leaves the queued bytes
      untouched and makes d readable right after them. */
  lemma WriteThenReadAll(buf: seq<Byte>, r: nat, w: nat, k: nat, d: seq<Byte>)
    requires r < |buf| && k < |buf| && w == Adv(r, k, |buf|)
    requires |d| <= |buf| - 1 - k
    ensures ReadSpec(WriteSpec(buf, w, d), r, k + |d|) == ReadSpec(buf, r, k) + d
  {
    var n := |buf|;
    var after := WriteSpec(buf, w, d);
    var lhs := ReadSpec(after, r, k + |d|);
    var rhs := ReadSpec(buf, r, k) + d;
    forall j | 0 <= j < k + |d|
      ensures lhs[j] == rhs[j]
    {
      ReadSpecAt(after, r, k + |d|, j);
      if j < k {
        ReadSpecAt(buf, r, k, j);
        WriteMissesQueued(buf, r, w, k, d, j);
      } else {
        AdvAdd(r, k, j - k, n);
        WriteSpecAt(buf, w, d, j - k);
      }
    }
  }

  /** One chunk of the write loop: copying the next nt bytes of d as a block
      at the write position is the byte-at-a-time write carried nt bytes further. */
  lemma WriteStep(buf0: seq<Byte>, w0: nat, d: seq<Byte>, done: nat, nt: nat)
    requires w0 < |buf0| && done + nt <= |d|
    requires Adv(w0, done, |buf0|) + nt <= |buf0|
    ensures WriteSpec(buf0, w0, d[..done + nt])
         == Splice(WriteSpec(buf0, w0, d[..done]), Adv(w0, done, |buf0|), d[done..done + nt])
    ensures Adv(w0, done + nt, |buf0|)
         == if Adv(w0, done, |buf0|) + nt == |buf0| then 0 else Adv(w0, done, |buf0|) + nt
  {
    var n := |buf0|;
    var wp := Adv(w0, done, n);
    WriteSpecChunk(WriteSpec(buf0, w0, d[..done]), wp, d[done..done + nt]);
    assert d[..done] + d[done..done + nt] == d[..done + nt];
    WriteSpecAppend(buf0, w0, d[..done], d[done..done + nt]);
    AdvAdd(w0, done, nt, n);
    AdvClosed(wp, nt, n);
  }

  /** One chunk of the read loop, the counterpart of WriteStep: with out the
      bytes read so far and rp the read position reached, appending the block
      at rp reads nt bytes more. */
  lemma ReadStep(buf: seq<Byte>, r0: nat, got: nat, nt: nat, rp: nat, out: seq<Byte>)
    requires r0 < |buf| && rp == Adv(r0, got, |buf|) && rp + nt <= |buf|
    requires out == ReadSpec(buf, r0, got)
    ensures out + buf[rp..rp + nt] == ReadSpec(buf, r0, got + nt)
    ensures Adv(r0, got + nt, |buf|) == if rp + nt == |buf| then 0 else rp + nt
  {
    ReadSpecChunk(buf, rp, nt);
    ReadSpecAppend(buf, r0, got, nt);
    AdvAdd(r0, got, nt, |buf|);
    AdvClosed(rp, nt, |buf|);
  }

  /** Moving the write position m steps on lengthens the queue by exactly m. */
  lemma QueueGrows(r: nat, k: nat, m: nat, k2: nat, n: nat)
    requires r < n && k + m < n && k2 < n
    requires Adv(r, k2, n) == Adv(Adv(r, k, n), m, n)
    ensures k2 == k + m
  {
    AdvAdd(r, k, m, n);
    AdvInjective(r, k + m, k2, n);
  }

  /** After a write that fits, the queue runs k + |d| steps from r to the new write position. */
  lemma WriteExtendsQueue(buf: seq<Byte>, r: nat, w: nat, k: nat, d: seq<Byte>, k2: nat)
    requires r < |buf| && k < |buf| && w == Adv(r, k, |buf|)
    requires |d| <= |buf| - 1 - k
    requires k2 < |buf| && Adv(r, k2, |buf|) == Adv(w, |d|, |buf|)
    ensures ReadSpec(WriteSpec(buf, w, d), r, k2) == ReadSpec(buf, r, k) + d
  {
    QueueGrows(r, k, |d|, k2, |buf|);
    WriteThenReadAll(buf, r, w, k, d);
  }

  /** After a read of num queued bytes, they were the first num and the rest remain queued. */
  lemma ReadShortensQueue(buf: seq<Byte>, r: nat, k: nat, num: nat, k2: nat)
    requires r < |buf| && k < |buf| && num <= k
    requires k2 < |buf| && Adv(Adv(r, num, |buf|), k2, |buf|) == Adv(r, k, |buf|)
    ensures ReadSpec(buf, r, num) == ReadSpec(buf, r, k)[..num]
    ensures ReadSpec(buf, Adv(r, num, |buf|), k2) == ReadSpec(buf, r, k)[num..]
  {
    QueueShrinks(r, k, num, k2, |buf|);
    ReadSpecAppend(buf, r, num, k - num);
    var a, b := ReadSpec(buf, r, num), ReadSpec(buf, Adv(r, num, |buf|), k - num);
    assert (a + b)[..num] == a && (a + b)[num..] == b;
  }

  /** Moving the read position num steps on shortens the queue by exactly num. */
  lemma QueueShrinks(r: nat, k: nat, num: nat, k2: nat, n: nat)
    requires r < n && k < n && num <= k && k2 < n
    requires Adv(Adv(r, num, n), k2, n) == Adv(r, k, n)
    ensures k2 == k - num
  {
    AdvAdd(r, num, k - num, n);
    AdvInjective(Adv(r, num, n), k - num, k2, n);
  }

  class FifoBytes {
    var size: Word
    var data: array<Byte>
    var writePos: Word
    var readPos: Word

    ghost predicate Valid()
      reads this
    {
      data.Length == size &&
      (size == 0 ==> writePos == 0 && readPos == 0) &&
      (size > 0 ==> writePos < size && readPos < size)
    }

    /** The bytes waiting to be read, oldest first. */
    ghost function Contents(): seq<Byte>
      reads this, data
      requires Valid()
    {
      if size == 0 then [] else ReadSpec(data[..], readPos, ReadAvailable())
    }

    constructor(n: Word)
      ensures Valid() && fresh(data)
      ensures size == n && writePos == 0 && readPos == 0
      ensures Contents() == []
    {
      size := n;
      data := new Byte[n];
      writePos := 0;
      readPos := 0;
    }

    method Clear()
      requires Valid()
      modifies this
      ensures Valid() && size == old(size) && data == old(data)
      ensures writePos == 0 && readPos == 0
      ensures Contents() == []
    {
      writePos := 0;
      readPos := 0;
    }

    method Size() returns (n: Word)
      ensures n == size
    {
      n := size;
    }

    /** Replaces the buffer by a new one of n bytes, which empties the FIFO. */
    method Resize(n: Word) returns (err: int)
      modifies this
      ensures Valid() && fresh(data)
      ensures size == n && writePos == 0 && readPos == 0
      ensures Contents() == [] && err == 0
    {
      size := n;
      data := new Byte[n];
      writePos := 0;
      readPos := 0;
      err := 0;
    }

    /** The number of bytes queued: the steps from the read position forward to the write position. */
    function ReadAvailable(): (k: Word)
      reads this
      requires Valid()
      ensures size > 0 ==> k < size && Adv(readPos, k, size) == writePos
      ensures size == 0 ==> k == 0
    {
      var k := if readPos <= writePos then writePos - readPos else size - readPos + writePos;
      RingDistance(readPos, writePos, size);
      k
    }

    /** The free space: one byte is always left unused, so the free and queued
        counts add up to size - 1. On a FIFO of size 0 the unsigned subtraction
        wraps to 0xFFFFFFFF. */
    function WriteAvailable(): (k: Word)
      reads this
      requires Valid()
      ensures size > 0 ==> k + ReadAvailable() == size - 1
      ensures size == 0 ==> k == 0xFFFF_FFFF
    {
      if readPos <= writePos then (size - writePos + readPos - 1) % Limit32
      else readPos - writePos - 1
    }

    /** Writes d in chunks that stop at the end of the buffer. The bytes land
        as if written one at a time; when they fit in the free space they are
        appended to the queued bytes. */
    method Write(d: seq<Byte>) returns (err: int)
      requires Valid() && |d| < Limit32
      requires size > 0 || d == []
      modifies this, data
      ensures Valid() && size == old(size) && data == old(data)
      ensures readPos == old(readPos) && err == 0
      ensures size > 0 ==> writePos == Adv(old(writePos), |d|, size)
      ensures size > 0 ==> data[..] == WriteSpec(old(data[..]), old(writePos), d)
      ensures size == 0 ==> writePos == old(writePos)
      ensures |d| <= old(WriteAvailable()) && size > 0 ==> Contents() == old(Contents()) + d
    {
      err := 0;
      var done := 0;
      while done < |d|
        invariant 0 <= done <= |d|
        invariant Valid() && size == old(size) && data == old(data) && readPos == old(readPos)
        invariant size > 0 ==> writePos == Adv(old(writePos), done, size)
        invariant size > 0 ==> data[..] == WriteSpec(old(data[..]), old(writePos), d[..done])
        decreases |d| - done
      {
        var nt := |d| - done;
        if nt > size - writePos {
          nt := size - writePos;
        }
        WriteStep(old(data[..]), old(writePos), d, done, nt);
        CopyInto(data, writePos, d[done..done + nt]);
        if writePos + nt == size {
          writePos := 0;
        } else {
          writePos := writePos + nt;
        }
        done := done + nt;
      }
      assert d[..done] == d;
      if |d| <= old(WriteAvailable()) && size > 0 {
        WriteExtendsQueue(old(data[..]), readPos, old(writePos), old(ReadAvailable()), d, ReadAvailable());
      }
    }

    /** Reads num bytes in chunks that stop at the end of the buffer. The bytes
        are those met one at a time from the read position; when no more than
        the queued bytes are asked for they are the oldest ones, and they leave
        the queue. */
    method Read(num: Word) returns (err: int, out: seq<Byte>)
      requires Valid()
      requires size > 0 || num == 0
      modifies this`readPos
      ensures Valid() && size == old(size) && data == old(data)
      ensures writePos == old(writePos) && err == 0
      ensures size > 0 ==> readPos == Adv(old(readPos), num, size)
      ensures size > 0 ==> out == ReadSpec(data[..], old(readPos), num)
      ensures size == 0 ==> readPos == old(readPos) && out == []
      ensures num <= old(ReadAvailable()) ==> out == old(Contents())[..num] && Contents() == old(Contents())[num..]
    {
      err := 0;
      out := [];
      ghost var buf, r0 := data[..], readPos;
      ghost var got := 0;
      var left := num;
      while left > 0
        invariant 0 <= left <= num && got == num - left
        invariant Valid() && data[..] == buf && |buf| == size
        invariant size > 0 ==> readPos == Adv(r0, got, size)
        invariant size > 0 ==> out == ReadSpec(buf, r0, got)
        invariant size == 0 ==> out == []
      {
        var nt := left;
        if nt > size - readPos {
          nt := size - readPos;
        }
        ReadStep(buf, r0, got, nt, readPos, out);
        out := out + data[readPos..readPos + nt];
        if readPos + nt == size {
          readPos := 0;
        } else {
          readPos := readPos + nt;
        }
        left := left - nt;
        got := got + nt;
      }
      if num <= old(ReadAvailable()) && size > 0 {
        ghost var k0, k2 := old(ReadAvailable()), ReadAvailable();
        ReadShortensQueue(buf, old(readPos), k0, num, k2);
        assert old(Contents()) == ReadSpec(buf, old(readPos), k0);
        assert Contents() == ReadSpec(buf, readPos, k2);
      }
    }
  }
}
