/** The three bit tricks: the XOR swap through two pointers, the
    `n & (n - 1)` power-of-two test and the shift-and-count population
    count. A 32-bit `int` or `uint32_t` is its bit pattern, a `bv32`. */
module BitHacks {

  /** Memory as a sequence of 32-bit cells; a pointer is an index into it. */
  type Memory = seq<bv32>

  /** `*a ^= *b; *b ^= *a; *a ^= *b;` with `a` and `b` indices into `mem`. */
  function XorSwap(mem: Memory, a: nat, b: nat): (r: Memory)
    requires a < |mem| && b < |mem|
    ensures |r| == |mem|
    ensures a != b ==> r[a] == mem[b] && r[b] == mem[a]
    ensures a == b ==> r[a] == 0
    ensures forall i :: 0 <= i < |mem| && i != a && i != b ==> r[i] == mem[i]
  {
    XorCancels(mem[a], mem[b]);
    XorCancels(0, 0);
    var m1 := mem[a := Xor(mem[a], mem[b])];
    var m2 := m1[b := Xor(m1[b], m1[a])];
    m2[a := Xor(m2[a], m2[b])]
  }

  /** `x ^ y` on a 32-bit pattern. */
  function Xor(x: bv32, y: bv32): bv32 {
    x ^ y
  }

  lemma XorCancels(x: bv32, y: bv32)
    ensures Xor(y, Xor(x, y)) == x && Xor(Xor(x, y), x) == y && Xor(x, x) == 0
  {
  }

  /** The same three statements on an array, where `a == b` aliases one cell. */
  method Swap(mem: array<bv32>, a: nat, b: nat)
    requires a < mem.Length && b < mem.Length
    modifies mem
    ensures mem[..] == XorSwap(old(mem[..]), a, b)
  {
    mem[a] := Xor(mem[a], mem[b]);
    mem[b] := Xor(mem[b], mem[a]);
    mem[a] := Xor(mem[a], mem[b]);
  }

  /** `(n != 0) && ((n & (n - 1)) == 0)`, an `int` that is 0 or 1; `n - 1`
      wraps for `n == 0` but is never evaluated then. */
  function IsPowerOfTwo(n: bv32): (r: int)
    ensures r == 0 || r == 1
    ensures r == 1 <==> exists k :: n == Pow2(k)
  {
    PowerOfTwoWitness(n);
    if n != 0 && (n & (n - 1)) == 0 then 1 else 0
  }

  /** `1 << k` for an exponent below 32. */
  function Pow2(k: bv5): bv32 {
    1 << k
  }

  /** Number of shifts until `n` becomes 0 or 1: the exponent of a power of two. */
  function Log2(n: bv32): bv5
    decreases n
  {
    if n >> 1 == 0 then 0 else 1 + Log2(n >> 1)
  }

  lemma {:induction false} Log2OfPower(n: bv32)
    requires n != 0 && (n & (n - 1)) == 0
    ensures n == Pow2(Log2(n))
    decreases n
  {
    if n >> 1 != 0 {
      var m := n >> 1;
      assert n & 1 == 0;
      assert m != 0 && (m & (m - 1)) == 0;
      Log2OfPower(m);
      assert n == m << 1;
    }
  }

  lemma PowerOfTwoWitness(n: bv32)
    ensures (n != 0 && (n & (n - 1)) == 0) <==> exists k :: n == Pow2(k)
  {
    if n != 0 && (n & (n - 1)) == 0 {
      Log2OfPower(n);
    }
  }

  /** Bit `k` of `n`, as 0 or 1. */
  function Bit(n: bv32, k: bv5): nat {
    if (n >> k) & 1 == 1 then 1 else 0
  }

  /** The number of 1 bits among positions `0..k` of `n`. */
  function OnesUpTo(n: bv32, k: bv5): nat
    decreases k
  {
    Bit(n, k) + if k == 0 then 0 else OnesUpTo(n, k - 1)
  }

  /** The number of 1 bits of `n`. */
  function Ones(n: bv32): nat {
    OnesUpTo(n, 31)
  }

  lemma {:induction false} OnesUpToShift(n: bv32, k: bv5)
    requires k < 31
    ensures OnesUpTo(n, k + 1) == Bit(n, 0) + OnesUpTo(n >> 1, k)
    decreases k
  {
    assert Bit(n, k + 1) == Bit(n >> 1, k);
    if k > 0 {
      OnesUpToShift(n, k - 1);
    }
  }

  /** Dropping the low bit removes exactly that bit from the count. */
  lemma OnesShift(n: bv32)
    ensures Ones(n) == Bit(n, 0) + Ones(n >> 1)
  {
    OnesUpToShift(n, 30);
    assert Bit(n >> 1, 31) == 0;
  }

  lemma {:induction false} OnesUpToZero(k: bv5)
    ensures OnesUpTo(0, k) == 0
    decreases k
  {
    if k > 0 {
      OnesUpToZero(k - 1);
    }
  }

  lemma {:induction false} OnesPositive(n: bv32)
    requires n != 0
    ensures Ones(n) >= 1
    decreases n
  {
    OnesShift(n);
    if n & 1 == 0 {
      OnesPositive(n >> 1);
    }
  }

  /** `count += n & 1; n >>= 1;` until `n` is 0; `n` strictly decreases. */
  method CountSetBits(n: bv32) returns (count: int)
    ensures count == Ones(n)
    ensures 0 <= count <= 32
    ensures count == 1 <==> IsPowerOfTwo(n) == 1
  {
    count := 0;
    var m := n;
    while m != 0
      invariant count >= 0
      invariant count + Ones(m) == Ones(n)
      decreases m
    {
      OnesShift(m);
      count := count + (m & 1) as int;
      m := m >> 1;
    }
    OnesUpToZero(31);
    OnesBound(n, 31);
    PowerOfTwoOnes(n);
  }

  lemma {:induction false} OnesBound(n: bv32, k: bv5)
    ensures OnesUpTo(n, k) <= k as int + 1
    decreases k
  {
    if k > 0 {
      OnesBound(n, k - 1);
    }
  }

  /** A power of two is exactly a value with a single 1 bit. */
  lemma {:induction false} PowerOfTwoOnes(n: bv32)
    ensures IsPowerOfTwo(n) == 1 <==> Ones(n) == 1
    decreases n
  {
    if n == 0 {
      OnesUpToZero(31);
    } else {
      OnesShift(n);
      if n & 1 == 0 {
        PowerOfTwoOnes(n >> 1);
        assert (n & (n - 1) == 0) <==> ((n >> 1) & ((n >> 1) - 1) == 0);
      } else {
        assert (n & (n - 1) == 0) <==> n == 1;
        if n >> 1 != 0 {
          OnesPositive(n >> 1);
        } else {
          OnesUpToZero(31);
        }
      }
    }
  }

  lemma Examples()
    ensures IsPowerOfTwo(0) == 0
    ensures IsPowerOfTwo(64) == 1
    ensures IsPowerOfTwo(0x8000_0000) == 1
    ensures IsPowerOfTwo(6) == 0
  {
    assert 64 == Pow2(6);
    assert 0x8000_0000 == Pow2(31);
  }
}
