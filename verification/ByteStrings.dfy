// Byte strings, the bitwise operators the codec uses, and the two array
// helpers (clone and clearBytes) every owner of a buffer relies on.
module ByteStrings {

  type byte = x: int | 0 <= x < 256
  type Bytes = seq<byte>

  function Zeros(n: nat): (z: Bytes)
    ensures |z| == n
  {
    seq(n, i => 0)
  }

  /** The bytes of a string literal; every literal of the program is ASCII. */
  function Ascii(s: string): (b: Bytes)
    ensures |b| == |s|
  {
    seq(|s|, i requires 0 <= i < |s| => s[i] as int % 128)
  }

  function Pow2(k: nat): (p: nat)
    ensures p >= 1
  {
    if k == 0 then 1 else 2 * Pow2(k - 1)
  }

  /** 2^252, which the order of the suite's group exceeds. */
  const TWO_252: nat := 0x1000000000000000000000000000000000000000000000000000000000000000

  lemma {:induction false} Pow2Add(a: nat, b: nat)
    ensures Pow2(a + b) == Pow2(a) * Pow2(b)
    decreases a
  {
    if a > 0 {
      Pow2Add(a - 1, b);
      assert Pow2(a + b) == 2 * Pow2(a - 1 + b);
    }
  }

  lemma EightBits(k: nat)
    ensures Pow2(8 * (k + 1)) == 256 * Pow2(8 * k)
  {
    Pow2Add(8, 8 * k);
    Pow2Add(4, 4);
    assert Pow2(4) == 16;
  }

  lemma {:induction false} Pow2Monotone(a: nat, b: nat)
    requires a <= b
    ensures Pow2(a) <= Pow2(b)
    decreases b - a
  {
    if a < b {
      Pow2Monotone(a + 1, b);
    }
  }

  // ----- bitwise operators on non-negative integers, digit by digit -----

  function BitOr(a: nat, b: nat): nat
    decreases a + b
  {
    if a == 0 && b == 0 then 0
    else (if a % 2 == 1 || b % 2 == 1 then 1 else 0) + 2 * BitOr(a / 2, b / 2)
  }

  function BitAnd(a: nat, b: nat): nat
    decreases a + b
  {
    if a == 0 && b == 0 then 0
    else (if a % 2 == 1 && b % 2 == 1 then 1 else 0) + 2 * BitAnd(a / 2, b / 2)
  }

  function ShiftLeft(a: nat, k: nat): nat { a * Pow2(k) }

  function ShiftRight(a: nat, k: nat): nat
  {
    if k == 0 then a else ShiftRight(a / 2, k - 1)
  }

  lemma {:induction false} OrZero(a: nat)
    ensures BitOr(a, 0) == a && BitOr(0, a) == a
  {
    if a > 0 {
      OrZero(a / 2);
    }
  }

  /** OR of two numbers that share no bit position is their sum. */
  lemma {:induction false} OrDisjoint(low: nat, high: nat, k: nat)
    requires low < Pow2(k)
    ensures BitOr(low, ShiftLeft(high, k)) == low + high * Pow2(k)
    ensures BitOr(ShiftLeft(high, k), low) == low + high * Pow2(k)
    decreases k
  {
    if k == 0 {
      OrZero(high);
    } else {
      var p := Pow2(k - 1);
      assert high * Pow2(k) == 2 * (high * p);
      OrDisjoint(low / 2, high, k - 1);
      if high == 0 {
        OrZero(low);
      }
    }
  }

  lemma {:induction false} AndZero(a: nat)
    ensures BitAnd(a, 0) == 0 && BitAnd(0, a) == 0
  {
    if a > 0 {
      AndZero(a / 2);
    }
  }

  /** AND with a mask of k ones keeps the k low bits. */
  lemma {:induction false} AndLowMask(n: nat, k: nat)
    ensures BitAnd(n, Pow2(k) - 1) == n % Pow2(k)
    decreases k
  {
    if k == 0 {
      AndZero(n);
    } else {
      var p := Pow2(k - 1);
      AndLowMask(n / 2, k - 1);
      assert (2 * p - 1) / 2 == p - 1;
      ModDouble(n, p);
      if n == 0 && k > 1 {
        AndZero(2 * p - 1);
      }
    }
  }

  lemma ModDouble(n: nat, p: nat)
    requires p > 0
    ensures n % (2 * p) == n % 2 + 2 * ((n / 2) % p)
    ensures n / (2 * p) == (n / 2) / p
  {
    var q, r := (n / 2) / p, (n / 2) % p;
    assert n == 2 * (q * p + r) + n % 2;
    assert n == q * (2 * p) + (2 * r + n % 2);
    DivModUnique(n, 2 * p, q, 2 * r + n % 2);
  }

  lemma DivModUnique(n: int, d: nat, q: int, r: nat)
    requires d > 0 && r < d && n == q * d + r
    ensures n / d == q && n % d == r
  {
    var q', r' := n / d, n % d;
    assert n == q' * d + r';
    if q' < q {
      MulStep(q', q, d);
    } else if q' > q {
      MulStep(q, q', d);
    }
  }

  lemma MulStep(a: int, b: int, d: nat)
    requires a < b
    ensures a * d + d <= b * d
  {
    assert b * d == a * d + d + (b - a - 1) * d;
  }

  lemma {:induction false} ShiftRightDivides(a: nat, k: nat)
    ensures ShiftRight(a, k) == a / Pow2(k)
    decreases k
  {
    if k > 0 {
      ShiftRightDivides(a / 2, k - 1);
      ModDouble(a, Pow2(k - 1));
    }
  }

  /** AND with one bit tests that bit. */
  lemma {:induction false} AndBit(n: nat, k: nat)
    ensures BitAnd(n, Pow2(k)) == (n / Pow2(k)) % 2 * Pow2(k)
    decreases k
  {
    if k == 0 {
      AndZero(n / 2);
    } else {
      var p := Pow2(k - 1);
      AndBit(n / 2, k - 1);
      ModDouble(n, p);
      assert (2 * p) / 2 == p && (2 * p) % 2 == 0;
      assert (n / (2 * p)) % 2 * (2 * p) == 2 * ((n / (2 * p)) % 2 * p);
    }
  }

  // ----- what can hold a secret on the heap -----

  class Scalar {
    var v: nat

    constructor (v: nat)
      ensures this.v == v
      ensures forall o: object | Store(o) && fresh(o) :: o == this
    {
      this.v := v;
    }
  }

  /** Contracts say of every store that a call allocated what became of it: a
      buffer that the contract does not name cannot exist. */
  ghost predicate Store(o: object) { o is array<byte> || o is Scalar }

  ghost predicate Wiped(a: array<byte>)
    reads a
  {
    a[..] == Zeros(a.Length)
  }

  /** Nothing is left in the store. */
  ghost predicate Cleared(o: object)
    reads o
  {
    && (o is array<byte> ==> Wiped(o as array<byte>))
    && (o is Scalar ==> (o as Scalar).v == 0)
  }

  /** The array holds s and otherwise zeros. */
  ghost predicate Padded(a: array<byte>, s: Bytes)
    reads a
  {
    |s| <= a.Length && a[..] == s + Zeros(a.Length - |s|)
  }

  /** Cleared means zero throughout. */
  lemma ClearedExactly(a: array<byte>, s: Scalar)
    ensures Wiped(a) <==> forall i | 0 <= i < a.Length :: a[i] == 0
    ensures Cleared(a) <==> forall i | 0 <= i < a.Length :: a[i] == 0
    ensures Cleared(s) <==> s.v == 0
  {
    if forall i | 0 <= i < a.Length :: a[i] == 0 {
      assert a[..] == Zeros(a.Length);
    }
    if Wiped(a) {
      forall i | 0 <= i < a.Length
        ensures a[i] == 0
      {
        assert a[i] == a[..][i];
      }
    }
  }

  // ----- arrays -----

  method Clone(src: array<byte>) returns (out: array<byte>)
    ensures fresh(out) && out[..] == src[..]
    ensures forall o: object | Store(o) && fresh(o) :: o == out
  {
    out := new byte[src.Length];
    for i := 0 to src.Length
      invariant out[..i] == src[..i]
      invariant forall o: object | Store(o) && fresh(o) :: o == out
    {
      out[i] := src[i];
    }
  }

  method FromSeq(s: Bytes) returns (out: array<byte>)
    ensures fresh(out) && out[..] == s
    ensures forall o: object | Store(o) && fresh(o) :: o == out
  {
    out := new byte[|s|];
    for i := 0 to |s|
      invariant out[..i] == s[..i]
      invariant forall o: object | Store(o) && fresh(o) :: o == out
    {
      out[i] := s[i];
    }
  }

  /** Overwrites every byte with zero, in place; a nil slice is left alone. */
  method ClearBytes(b: array?<byte>)
    modifies if b == null then {} else {b}
    ensures b != null ==> Wiped(b)
    ensures forall o: object | Store(o) :: !fresh(o)
  {
    if b == null {
      return;
    }
    for i := 0 to b.Length
      invariant forall k | 0 <= k < i :: b[k] == 0
      invariant forall o: object | Store(o) :: !fresh(o)
    {
      b[i] := 0;
    }
  }
}
