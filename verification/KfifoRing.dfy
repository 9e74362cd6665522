/** Arithmetic of the kfifo ring: free-running 32-bit indices over a power-of-two buffer. */
module KfifoRing {
  import opened Bits

  type Bytes = seq<bv8>

  function Min(a: nat, b: nat): nat { if a < b then a else b }

  // unsigned int wraps here.
  const WORD: nat := 0x1_0000_0000

  /** A size that kfifo_init accepts without a warning and that fits its 32-bit indices. */
  ghost predicate GoodSize(size: nat) { IsPow2(size) && size < WORD }

  /** Where the code puts (or finds) byte j of a transfer of len bytes that starts at index idx:
      up to the end of the buffer first, the rest at its beginning. */
  function Place(size: nat, idx: nat, j: nat): (p: nat)
    requires size > 0
  {
    var at := And(idx, size - 1);
    if j < size - at then at + j else j - (size - at)
  }

  /** The size of the first of the two copies. */
  function FirstPart(size: nat, idx: nat, len: nat): (l: nat)
    requires size > 0
    ensures l <= len && And(idx, size - 1) + l <= size
  {
    AndAtMost(idx, size - 1);
    Min(len, size - And(idx, size - 1))
  }

  /** Unsigned arithmetic on indices. */
  function Wrap(x: int): (w: nat)
    ensures w < WORD
  {
    x % WORD
  }

  /** Where byte k of the stream lives. */
  function Slot(size: nat, k: nat): (p: nat)
    requires size > 0
    ensures p < size
  {
    k % size
  }

  lemma {:induction false} MaskMod(size: nat, idx: nat)
    requires IsPow2(size)
    ensures size > 0 && And(idx, size - 1) == idx % size
  {
    var k: nat :| size == Pow2(k);
    MaskIsMod(idx, k);
  }

  lemma {:induction false} SizeDividesWord(size: nat)
    requires GoodSize(size)
    ensures size > 0 && WORD % size == 0
  {
    hide Pow2;
    Pow2At32();
    var k: nat :| size == Pow2(k);
    assert k <= 32 by { if k > 32 { Pow2Mono(32, k); } }
    Pow2Divides(k, 32);
  }

  lemma {:induction false} ModMultiple(q: nat, r: nat, n: nat)
    requires n > 0
    ensures (n * q + r) % n == r % n
  {
    assert n * (q + r / n) == n * q + n * (r / n);
    assert r == n * (r / n) + r % n;
    ModUnique(n * q + r, n, q + r / n, r % n);
  }

  lemma {:induction false} ModOfMod(x: nat, m: nat, n: nat)
    requires n > 0 && m > 0 && m % n == 0
    ensures x % m % n == x % n
  {
    var b, a, r := m / n, x / m, x % m;
    assert m == n * b && x == m * a + r;
    MulAssoc(n, b, a);
    ModMultiple(b * a, r, n);
  }

  lemma {:induction false} MulAssoc(x: nat, y: nat, z: nat)
    ensures x * y * z == x * (y * z)
  {
  }

  lemma {:induction false} ModAdd(x: nat, y: nat, n: nat)
    requires n > 0
    ensures (x % n + y) % n == (x + y) % n
  {
    var q: nat, r: nat := x / n, x % n;
    assert n * q + r == x by { DivMod(x, n); }
    ModMultiple(q, r + y, n);
    assert n * q + (r + y) == x + y;
  }

  /** Byte j of a transfer starting at position pos of the byte stream lives in slot (pos + j) mod
      size, although the code only knows pos modulo 2^32. */
  lemma {:induction false} PlaceIs(size: nat, pos: nat, j: nat)
    requires GoodSize(size) && j < size
    ensures size > 0 && Place(size, Wrap(pos), j) == Slot(size, pos + j)
  {
    SizeDividesWord(size);
    MaskMod(size, pos % WORD);
    ModOfMod(pos, WORD, size);
    ModAdd(pos, j, size);
    var at := pos % size;
    if j < size - at {
      ModUnique(at + j, size, 0, at + j);
    } else {
      ModUnique(at + j, size, 1, at + j - size);
    }
  }

  /** Different positions less than a buffer apart never share a slot. */
  lemma {:induction false} SlotsApart(size: nat, a: nat, b: nat)
    requires size > 0 && a < b < a + size
    ensures Slot(size, a) != Slot(size, b)
  {
    if a % size == b % size {
      assert a == size * (a / size) + a % size && b == size * (b / size) + b % size;
      assert b - a == size * (b / size - a / size);
      MulAtLeast(size, b / size - a / size);
      assert false;
    }
  }

  /** Unsigned subtraction of the wrapped indices gives the true distance. */
  lemma {:induction false} WrappedDistance(i: nat, o: nat)
    requires o <= i < o + WORD
    ensures Wrap(Wrap(i) - Wrap(o)) == i - o
  {
    var a, b := i / WORD, o / WORD;
    assert i == WORD * a + i % WORD && o == WORD * b + o % WORD;
  }

  /** The free space the writer computes from wrapped indices. */
  lemma {:induction false} WrappedRoom(size: nat, i: nat, o: nat)
    requires size < WORD && o <= i <= o + size
    ensures Wrap(size - Wrap(i) + Wrap(o)) == size - (i - o)
  {
    var a, b := i / WORD, o / WORD;
    assert i == WORD * a + i % WORD && o == WORD * b + o % WORD;
  }

  /** A number that is m off a value below 2^32 by whole turns wraps to that value. */
  lemma {:induction false} WrapTurns(x: int, m: int, r: nat)
    requires x == WORD * m + r && r < WORD
    ensures Wrap(x) == r
  {
  }

  lemma {:induction false} WrappedAdd(i: nat, n: nat)
    ensures Wrap(Wrap(i) + n) == Wrap(i + n)
  {
    ModAdd(i, n, WORD);
  }

  /** roundup_pow_of_two.  A request over 2^31 would shift by 32, which C leaves undefined. */
  method RoundUp(n: nat) returns (r: nat)
    requires n <= 0x8000_0000
    ensures IsPow2(r) && n <= r && (n > 0 ==> r < 2 * n) && (n == 0 ==> r == 1)
  {
    Pow2At32();
    if n == 0 { assert Pow2(0) == 1; return 1; }
    LowBitTest(n, 32);
    if n == And(n, WORD - n) { return n; }
    var bits, temp: nat := 0, n;
    r := 1;
    while temp > 0
      invariant r == Pow2(bits) && temp * r <= n < (temp + 1) * r
      invariant temp > 0 || r <= 2 * n
    {
      var t := temp / 2;
      Pow2Step(bits);
      HalveBound(n, temp, r);
      bits, temp, r := bits + 1, t, 2 * r;
    }
    NotDouble(n, bits);
  }

  lemma {:induction false} NotDouble(n: nat, k: nat)
    requires !IsPow2(n)
    ensures Pow2(k) != 2 * n
  {
    if k > 0 { assert n != Pow2(k - 1); }
  }

  lemma {:induction false} HalveBound(n: nat, temp: nat, r: nat)
    requires temp > 0 && r > 0 && temp * r <= n < (temp + 1) * r
    ensures temp / 2 * (2 * r) <= n < (temp / 2 + 1) * (2 * r)
    ensures temp / 2 == 0 ==> 2 * r <= 2 * n
  {
    var t := temp / 2;
    assert temp == 2 * t || temp == 2 * t + 1;
    assert t * (2 * r) == 2 * t * r;
    assert (t + 1) * (2 * r) == (2 * t + 2) * r;
    if temp == 2 * t {
      assert (2 * t + 2) * r == (temp + 1) * r + r;
    } else {
      assert temp * r == 2 * t * r + r;
    }
    MulAtLeast(r, temp);
    assert temp * r >= r;
  }
}
