/** Machine words, bitwise OR on naturals, in-place copies and the index
    arithmetic shared by the host-side NVMe access code of all three variants. */
module Words {

  const Limit32: nat := 0x1_0000_0000
  const Limit64: nat := 0x1_0000_0000_0000_0000

  /** An unsigned 32-bit value (BUInt32, uint32_t). */
  type Word = x: int | 0 <= x < 0x1_0000_0000

  /** An unsigned 8-bit value (BUInt8, char used as a byte). */
  type Byte = x: int | 0 <= x < 0x100

  datatype Option<T> = None | Some(value: T)

  /** 2 to the power k. */
  function Pow2(k: nat): (p: nat)
    ensures p >= 1
  {
    if k == 0 then 1 else 2 * Pow2(k - 1)
  }

  /** Bitwise OR of two naturals, taken one bit at a time from the least significant end. */
  function BitOr(a: nat, b: nat): nat
    decreases a + b
  {
    if a == 0 then b
    else if b == 0 then a
    else 2 * BitOr(a / 2, b / 2) + (if a % 2 == 1 || b % 2 == 1 then 1 else 0)
  }

  lemma {:induction false} Pow2Add(a: nat, b: nat)
    ensures Pow2(a + b) == Pow2(a) * Pow2(b)
  {
    if a > 0 {
      Pow2Add(a - 1, b);
      assert Pow2(a + b) == 2 * Pow2(a - 1 + b);
    }
  }

  /** The powers of two the bit layouts of the source use. */
  lemma Pow2Facts()
    ensures Pow2(8) == 0x100 && Pow2(12) == 0x1000 && Pow2(16) == 0x1_0000
    ensures Pow2(24) == 0x100_0000 && Pow2(26) == 0x400_0000 && Pow2(28) == 0x1000_0000
    ensures Pow2(32) == 0x1_0000_0000
  {
    assert Pow2(4) == 16;
    assert Pow2(8) == 256;
    Pow2Add(4, 8);
    Pow2Add(8, 8);
    Pow2Add(16, 8);
    Pow2Add(24, 2);
    Pow2Add(24, 4);
    Pow2Add(16, 16);
  }

  lemma MulAtLeast(k: nat, d: nat)
    requires k >= 1
    ensures k * d >= d
  {
  }

  /** Division with remainder is unique: q * d + r with r < d divides back into q and r. */
  lemma DivModOf(q: nat, r: nat, d: nat)
    requires r < d
    ensures (q * d + r) / d == q && (q * d + r) % d == r
  {
    var x := q * d + r;
    var q', r' := x / d, x % d;
    assert x == q' * d + r';
    if q > q' {
      MulAtLeast(q - q', d);
    } else if q' > q {
      MulAtLeast(q' - q, d);
    }
  }

  lemma HalfOfMultiple(hi: nat, k: nat)
    requires k > 0
    ensures (hi * Pow2(k)) % 2 == 0 && (hi * Pow2(k)) / 2 == hi * Pow2(k - 1)
  {
    assert hi * Pow2(k) == 2 * (hi * Pow2(k - 1));
  }

  /** One bit of BitOrDisjoint: an even m ORs with lo as m / 2 does with lo / 2, shifted. */
  lemma BitOrDisjointStep(m: nat, half: nat, lo: nat)
    requires m % 2 == 0 && m / 2 == half && lo != 0
    requires BitOr(half, lo / 2) == half + lo / 2
    ensures BitOr(m, lo) == m + lo
  {
  }

  /** OR-ing a value into bits that are all zero is addition. */
  lemma {:induction false} BitOrDisjoint(hi: nat, lo: nat, k: nat)
    requires lo < Pow2(k)
    ensures BitOr(hi * Pow2(k), lo) == hi * Pow2(k) + lo
  {
    if k == 0 {
      assert lo == 0;
    } else if hi == 0 || lo == 0 {
    } else {
      HalfOfMultiple(hi, k);
      assert Pow2(k) == 2 * Pow2(k - 1);
      BitOrDisjoint(hi, lo / 2, k - 1);
      BitOrDisjointStep(hi * Pow2(k), hi * Pow2(k - 1), lo);
    }
  }

  /** OR keeps values of k bits within k bits. */
  lemma {:induction false} BitOrBound(a: nat, b: nat, k: nat)
    requires a < Pow2(k) && b < Pow2(k)
    ensures BitOr(a, b) < Pow2(k)
  {
    if a == 0 || b == 0 {
    } else {
      assert k > 0;
      BitOrBound(a / 2, b / 2, k - 1);
    }
  }

  lemma {:induction false} BitOrCommutes(a: nat, b: nat)
    ensures BitOr(a, b) == BitOr(b, a)
    decreases a + b
  {
    if a != 0 && b != 0 {
      BitOrCommutes(a / 2, b / 2);
    }
  }

  /** OR-ing in a bit that is already set changes nothing. */
  lemma {:induction false} BitOrHighBitSet(r: nat, k: nat)
    requires r < Pow2(k)
    ensures BitOr(Pow2(k) + r, Pow2(k)) == Pow2(k) + r
  {
    if k == 0 {
      assert BitOr(1, 1) == 2 * BitOr(0, 0) + 1;
    } else {
      BitOrHighBitSet(r / 2, k - 1);
      assert (Pow2(k) + r) / 2 == Pow2(k - 1) + r / 2;
    }
  }

  /** The 32-bit OR used for register addresses and command words. */
  function Or32(a: Word, b: Word): (r: Word)
  {
    BitOrBound32(a, b);
    BitOr(a, b)
  }

  /** OR keeps two words within a word. */
  lemma BitOrBound32(a: Word, b: Word)
    ensures BitOr(a, b) < Limit32
  {
    Pow2Facts();
    BitOrBound(a, b, 32);
  }

  /** OR-ing a 16-bit value into the upper half of a word is addition, and the halves divide back out. */
  lemma OrBelowBit16(high: nat, low: nat)
    requires high < 0x1_0000 && low < 0x1_0000
    ensures high * 0x1_0000 < Limit32
    ensures Or32(high * 0x1_0000, low) == high * 0x1_0000 + low
    ensures (high * 0x1_0000 + low) % 0x1_0000 == low && (high * 0x1_0000 + low) / 0x1_0000 == high
  {
    Pow2Facts();
    BitOrDisjoint(high, low, 16);
    DivModOf(high, low, 0x1_0000);
  }

  /** OR-ing a value below bit 24 into a multiple of 2^24 is addition. */
  lemma OrBelowBit24(base: Word, high: nat, low: nat)
    requires base == high * 0x100_0000 && low < 0x100_0000
    ensures Or32(base, low) == base + low
  {
    Pow2Facts();
    BitOrDisjoint(high, low, 24);
  }

  /** A word read as a signed 32-bit two's-complement value: what "%d" prints
      for it, and what C gives when it converts a uint32_t to int. */
  function Signed32(w: Word): (x: int)
    ensures -0x8000_0000 <= x < 0x8000_0000
    ensures x < 0 <==> w >= 0x8000_0000
  {
    if w < 0x8000_0000 then w else w - Limit32
  }

  /** The sum of two words as uint32_t arithmetic gives it. */
  function Add32(a: Word, b: Word): (r: Word)
    ensures a + b < Limit32 ==> r == a + b
  {
    (a + b) % Limit32
  }

  /** A run of zero words, as left by memset. */
  function Zeros(n: nat): (z: seq<Word>)
    ensures |z| == n && forall i :: 0 <= i < n ==> z[i] == 0
  {
    seq(n, _ => 0)
  }

  /** s with the block src written over it starting at index at (a memcpy into s). */
  function Splice<T>(s: seq<T>, at: nat, src: seq<T>): (r: seq<T>)
    requires at + |src| <= |s|
    ensures |r| == |s|
    ensures forall j :: 0 <= j < at ==> r[j] == s[j]
    ensures forall j :: 0 <= j < |src| ==> r[at + j] == src[j]
    ensures forall j :: at + |src| <= j < |s| ==> r[j] == s[j]
  {
    s[..at] + src + s[at + |src|..]
  }

  /** memcpy(&dst[at], src, |src| * sizeof(T)). */
  method CopyInto<T>(dst: array<T>, at: nat, src: seq<T>)
    requires at + |src| <= dst.Length
    modifies dst
    ensures dst[..] == Splice(old(dst[..]), at, src)
  {
    var k := 0;
    while k < |src|
      invariant 0 <= k <= |src|
      invariant forall j :: 0 <= j < dst.Length && !(at <= j < at + k) ==> dst[j] == old(dst[j])
      invariant forall j :: 0 <= j < k ==> dst[at + j] == src[j]
    {
      dst[at + k] := src[k];
      k := k + 1;
    }
    assert forall j :: 0 <= j < dst.Length ==> dst[..][j] == Splice(old(dst[..]), at, src)[j] by {
      forall j | 0 <= j < dst.Length
        ensures dst[..][j] == Splice(old(dst[..]), at, src)[j]
      {
        if at <= j < at + |src| {
          assert dst[at + (j - at)] == src[j - at];
        }
      }
    }
  }

  /** The source's "x++; if(x >= n) x = 0;" on a 32-bit unsigned index. */
  function NextIndex(x: Word, n: Word): Word
  {
    var y := (x + 1) % Limit32;
    if y >= n then 0 else y
  }

  /** Two adjacent slices of s join into one. */
  lemma SliceJoin<T>(s: seq<T>, a: nat, b: nat, c: nat)
    requires a <= b <= c <= |s|
    ensures s[a..b] + s[b..c] == s[a..c]
  {
  }

  /** Inside a ring of n slots the 32-bit increment never wraps: the index
      steps to the next slot and goes back to slot 0 exactly after the last one. */
  lemma NextIndexInRing(x: Word, n: Word)
    requires x < n
    ensures NextIndex(x, n) < n
    ensures NextIndex(x, n) == if x == n - 1 then 0 else x + 1
  {
  }

  /** The largest number of data words one PCIe packet of the source carries. */
  const MaxPayloadWords: nat := 32

  /** The sizes of the successive pieces when n words are sent at most MaxPayloadWords at a time. */
  function Chunks(n: nat): seq<nat>
    decreases n
  {
    if n == 0 then [] else
      var k := if n > MaxPayloadWords then MaxPayloadWords else n;
      [k] + Chunks(n - k)
  }

  function Sum(s: seq<nat>): nat
  {
    if s == [] then 0 else s[0] + Sum(s[1..])
  }

  /** The pieces are non-empty, none is larger than the payload limit, all but the
      last are full, they add up to n, and there are n / 32 of them rounded up. */
  lemma {:induction false} ChunksSplit(n: nat)
    ensures Sum(Chunks(n)) == n
    ensures forall i :: 0 <= i < |Chunks(n)| ==> 0 < Chunks(n)[i] <= MaxPayloadWords
    ensures forall i :: 0 <= i < |Chunks(n)| - 1 ==> Chunks(n)[i] == MaxPayloadWords
    ensures |Chunks(n)| == (n + MaxPayloadWords - 1) / MaxPayloadWords
  {
    if n > 0 {
      var k := if n > MaxPayloadWords then MaxPayloadWords else n;
      ChunksSplit(n - k);
      assert Chunks(n) == [k] + Chunks(n - k);
      assert Chunks(n)[1..] == Chunks(n - k);
    }
  }
}
