// The assumptions on the primitives have a model of every prime order that fits
// the 32-byte encoding.
module SuiteModel {
  import opened ByteStrings
  import opened Errors
  import opened Sampling
  import opened Suite

  /** The little-endian digits of e, in n bytes. */
  function Digits(e: nat, n: nat): (b: Bytes)
    ensures |b| == n
  {
    if n == 0 then [] else [e % 256] + Digits(e / 256, n - 1)
  }

  lemma {:induction false} DigitsDetermine(e: nat, n: nat)
    requires e < Pow2(8 * n)
    ensures LittleEndian(Digits(e, n)) == e
  {
    if n > 0 {
      EightBits(n - 1);
      DigitsDetermine(e / 256, n - 1);
      assert Digits(e, n)[1..] == Digits(e / 256, n - 1);
    }
  }

  lemma {:induction false} DigitsUnique(b: Bytes)
    ensures Digits(LittleEndian(b), |b|) == b
  {
    if b != [] {
      var rest := LittleEndian(b[1..]);
      DivModUnique(b[0] + 256 * rest, 256, rest, b[0]);
      DigitsUnique(b[1..]);
      assert b == [b[0]] + b[1..];
    }
  }

  lemma {:induction false} ZeroDigits(n: nat)
    ensures Digits(0, n) == Zeros(n)
  {
    if n > 0 {
      ZeroDigits(n - 1);
      assert Zeros(n) == [0] + Zeros(n - 1);
    }
  }

  /** Constant hashes, multiplication modulo q, little-endian encodings. */
  function Model(q: nat): Primitives
    requires q > 0
  {
    var digest: Digest := Zeros(64);
    Primitives(
      (x: Bytes) => digest, (k: Digest, m: Bytes) => digest, (k: Bytes, i: Bytes, n: nat) => Zeros(n), q,
      (s: nat, e: nat) => Product(s, e, q),
      (e: nat) => Digits(e, 32),
      (b: Bytes) => if |b| == 32 && LittleEndian(b) < q then Some(LittleEndian(b)) else None,
      (d: Digest) => 1)
  }

  lemma LawsConsistent(q: nat)
    requires Prime(q) && q <= Pow2(256)
    ensures Model(q).Laws() && Model(q).order == q
    ensures q > TWO_252 ==> Model(q).Valid()
  {
    var p := Model(q);
    forall e: nat | e < q
      ensures |p.encode(e)| == 32 && p.decode(p.encode(e)) == Some(e)
    {
      DigitsDetermine(e, 32);
    }
    forall b: Bytes, e: nat {:trigger p.encode(e), p.decode(b)} | p.decode(b) == Some(e)
      ensures e < q && p.encode(e) == b
    {
      DigitsUnique(b);
    }
    ZeroDigits(32);
  }
}
