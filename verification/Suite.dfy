// The cryptographic primitives, left uninterpreted, and what the key schedule
// computes from them. Source: crypto.go, transcript.go.
//
// Nothing is assumed of the hash functions but their output length: on byte
// strings they cannot be injective. Statements that need two outputs to differ
// end in "or this is a clash", where the clash is computed from the inputs that
// the run itself hashed.
module Suite {
  import opened ByteStrings
  import opened Errors
  import opened HashInputs
  import opened LengthValue

  type Digest = d: Bytes | |d| == 64 witness Zeros(64)

  /** The group of order `order`, written additively as the integers modulo
      that order; every group of prime order is such a one. `mul` multiplies an
      element by a scalar, `encode` gives the canonical encoding of an element,
      `decode` accepts canonical encodings only, `fromUniform` maps 64 bytes to
      an element. */
  datatype Primitives = Primitives(
    sha512: Bytes -> Digest,
    hmac: (Digest, Bytes) -> Digest,
    hkdf: (Bytes, Bytes, nat) -> Bytes,
    order: nat,
    mul: (nat, nat) -> nat,
    encode: nat -> Bytes,
    decode: Bytes -> Option<nat>,
    fromUniform: Digest -> nat)
  {
    /** That `mul` is a product modulo `order` is used only where a proof names
        that product, which keeps the other proofs linear. */
    ghost predicate Laws()
    {
      && Prime(order)
      && (forall s: nat, e: nat :: mul(s, e) < order)
      && (forall s: nat, e: nat {:trigger Product(s, e, order)} :: mul(s, e) == Product(s, e, order))
      && (forall e: nat | e < order :: |encode(e)| == 32 && decode(encode(e)) == Some(e))
      && (forall b: Bytes, e: nat {:trigger encode(e), decode(b)} | decode(b) == Some(e) :: e < order && encode(e) == b)
      && encode(0) == Zeros(32)
      && (forall d: Digest :: fromUniform(d) < order)
      && (forall k: Bytes, i: Bytes, n: nat :: |hkdf(k, i, n)| == n)
    }

    /** The order of the suite's group exceeds 2^252. */
    ghost predicate Valid() { Laws() && order > TWO_252 }

    function Generator(prs: Bytes, ci: Bytes, sid: Bytes): nat
    {
      fromUniform(sha512(GeneratorString(DSI, prs, ci, sid, BLOCK_SIZE)))
    }
  }

  function Product(s: nat, e: nat, order: nat): nat
    requires order > 0
  {
    s * e % order
  }

  ghost predicate Prime(p: nat)
  {
    p >= 2 && NoDivisorUpTo(p, p - 1)
  }

  /** None of 2, ..., d divides p. */
  predicate NoDivisorUpTo(p: nat, d: nat)
  {
    d < 2 || (p % d != 0 && NoDivisorUpTo(p, d - 1))
  }

  lemma {:induction false} NotDivided(p: nat, max: nat, d: nat)
    requires NoDivisorUpTo(p, max) && 2 <= d <= max
    ensures p % d != 0
  {
    if d < max {
      NotDivided(p, max - 1, d);
    }
  }

  // ----- prime-order arithmetic -----

  /** Euclid's lemma, by descent on the first factor. */
  lemma {:induction false} NonzeroProduct(p: nat, a: nat, b: nat)
    requires Prime(p) && 0 < a < p && 0 < b < p
    ensures a * b % p != 0
    decreases a
  {
    if a > 1 {
      var q, r := p / a, p % a;
      NotDivided(p, p - 1, a);
      NonzeroProduct(p, r, b);
      if a * b % p == 0 {
        var m := a * b / p;
        assert r * b == (b - q * m) * p by {
          assert p == q * a + r;
          assert q * (a * b) == q * (m * p);
          assert p * b == q * a * b + r * b;
        }
        MultipleModZero(b - q * m, p);
      }
    }
  }

  lemma MultipleModZero(k: int, p: nat)
    requires p > 0
    ensures k * p % p == 0
  {
    ModSum(0, k, p);
  }

  lemma ModSum(x: int, k: int, p: nat)
    requires p > 0
    ensures (x + k * p) % p == x % p
  {
    assert x + k * p == (x / p + k) * p + x % p;
    DivModUnique(x + k * p, p, x / p + k, x % p);
  }

  lemma MulModRight(a: int, b: int, p: nat)
    requires p > 0
    ensures a * (b % p) % p == a * b % p
  {
    var q := b / p;
    assert a * b == a * (b % p) + (a * q) * p by {
      assert b == q * p + b % p;
      assert a * (q * p) == (a * q) * p;
    }
    ModSum(a * (b % p), a * q, p);
  }

  lemma ProductsDiffer(p: nat, s: nat, e: nat, f: nat)
    requires Prime(p) && 0 < s < p && e < f < p
    ensures s * e % p != s * f % p
  {
    NonzeroProduct(p, s, f - e);
    if s * e % p == s * f % p {
      assert s * (f - e) == s * f - s * e;
      DifferenceIsMultiple(s * f, s * e, p);
    }
  }

  lemma DifferenceIsMultiple(x: nat, y: nat, p: nat)
    requires p > 0 && x % p == y % p
    ensures (x - y) % p == 0
  {
    var k := x / p - y / p;
    assert x - y == k * p by {
      assert x == x / p * p + x % p && y == y / p * p + y % p;
    }
    MultipleModZero(k, p);
  }

  lemma ProductSwap(a: nat, b: nat, q: nat)
    requires q > 0
    ensures Product(a, b, q) == Product(b, a, q)
    ensures Product(a, 0, q) == 0
  {
    assert a * b == b * a;
    assert a * 0 == 0;
  }

  lemma ProductsCommute(a: nat, b: nat, g: nat, q: nat)
    requires q > 0
    ensures Product(a, Product(b, g, q), q) == Product(b, Product(a, g, q), q)
  {
    MulModRight(a, b * g, q);
    MulModRight(b, a * g, q);
    assert a * (b * g) == b * (a * g);
  }

  // ----- scalar multiplication -----

  lemma MulIsProduct(p: Primitives, s: nat, e: nat)
    requires p.Laws()
    ensures p.mul(s, e) == s * e % p.order < p.order
  {
    assert p.mul(s, e) == Product(s, e, p.order);
  }

  /** Diffie-Hellman: the two orders of multiplication agree. */
  lemma MulCommutes(p: Primitives, a: nat, b: nat, g: nat)
    requires p.Laws()
    ensures p.mul(a, p.mul(b, g)) == p.mul(b, p.mul(a, g))
  {
    var q := p.order;
    calc {
      p.mul(a, p.mul(b, g));
      Product(a, Product(b, g, q), q);
      { ProductsCommute(a, b, g, q); }
      Product(b, Product(a, g, q), q);
      p.mul(b, p.mul(a, g));
    }
  }

  lemma MulSwap(p: Primitives, a: nat, b: nat)
    requires p.Laws()
    ensures p.mul(a, b) == p.mul(b, a) < p.order
    ensures p.mul(a, 0) == 0
  {
    ProductSwap(a, b, p.order);
    assert p.mul(a, b) == Product(a, b, p.order);
    assert p.mul(b, a) == Product(b, a, p.order);
    assert p.mul(a, 0) == Product(a, 0, p.order);
  }

  lemma MulNonzero(p: Primitives, s: nat, e: nat)
    requires p.Laws() && 0 < s < p.order && 0 < e < p.order
    ensures 0 < p.mul(s, e) < p.order
  {
    MulIsProduct(p, s, e);
    NonzeroProduct(p.order, s, e);
  }

  /** A nonzero scalar maps distinct elements to distinct elements. */
  lemma MulInjective(p: Primitives, s: nat, e: nat, f: nat)
    requires p.Laws() && 0 < s < p.order && e < p.order && f < p.order
    requires p.mul(s, e) == p.mul(s, f)
    ensures e == f
  {
    MulIsProduct(p, s, e);
    MulIsProduct(p, s, f);
    if e < f {
      ProductsDiffer(p.order, s, e, f);
    } else if f < e {
      ProductsDiffer(p.order, s, f, e);
    }
  }

  // ----- the key schedule -----

  /** What one party believes the exchange to be. */
  datatype View = View(sid: Bytes, k: Bytes, ya: Bytes, ada: Bytes, yb: Bytes, adb: Bytes)
  {
    function Transcript(): Bytes { TranscriptBytes(ya, ada, yb, adb) }

    function Material(): Bytes { IskMaterial(sid, k, Transcript()) }

    function Isk(p: Primitives): Digest { p.sha512(Material()) }

    function Tag(p: Primitives, y: Bytes, ad: Bytes): Digest { ConfirmationTag(p, Isk(p), sid, y, ad) }

    function InitiatorTag(p: Primitives): Digest { Tag(p, ya, ada) }

    function ResponderTag(p: Primitives): Digest { Tag(p, yb, adb) }

    function TranscriptID(p: Primitives): Digest { p.sha512(SidOutputInput(Transcript())) }
  }

  function ConfirmationTag(p: Primitives, isk: Bytes, sid: Bytes, y: Bytes, ad: Bytes): Digest
  {
    p.hmac(p.sha512(MacKeyInput(isk, sid)), MacMessage(y, ad))
  }

  /** The whole key schedule of a view in the three primitives and the bytes
      they are applied to. */
  lemma KeySchedule(p: Primitives, v: View)
    ensures v.Isk(p) == p.sha512(LvCat([Ascii("CPaceRistretto255_ISK"), v.sid, v.k, v.ya, v.ada, v.yb, v.adb]))
    ensures v.InitiatorTag(p) == p.hmac(p.sha512(Ascii("CPaceMac") + v.sid + v.Isk(p)), LvCat([v.ya, v.ada]))
    ensures v.ResponderTag(p) == p.hmac(p.sha512(Ascii("CPaceMac") + v.sid + v.Isk(p)), LvCat([v.yb, v.adb]))
    ensures v.TranscriptID(p) == p.sha512(Ascii("CPaceSidOutput") + LvCat([v.ya, v.ada, v.yb, v.adb]))
  {
    IskMaterialIsSevenFields(v.sid, v.k, v.ya, v.ada, v.yb, v.adb);
    TranscriptIsFourFields(v.ya, v.ada, v.yb, v.adb);
  }

  // ----- clashes -----

  /** Two inputs offered as evidence against one primitive. */
  datatype Clash =
    | HashClash(x: Bytes, y: Bytes)
    | MacClash(key: Digest, message: Bytes, key': Digest, message': Bytes)
    | GeneratorClash(gx: Bytes, gy: Bytes)
  {
    /** The inputs differ, the outputs do not. */
    predicate Breaks(p: Primitives)
    {
      match this
      case HashClash(x, y) => x != y && p.sha512(x) == p.sha512(y)
      case MacClash(k, m, k', m') => (k, m) != (k', m') && p.hmac(k, m) == p.hmac(k', m')
      case GeneratorClash(x, y) => x != y && p.fromUniform(p.sha512(x)) == p.fromUniform(p.sha512(y))
    }
  }

  /** Descends from two equal tags to the first pair of inputs that differ. */
  function TagClash(p: Primitives, v: View, y: Bytes, ad: Bytes, w: View, y': Bytes, ad': Bytes): Clash
  {
    var (keyV, keyW) := (MacKeyInput(v.Isk(p), v.sid), MacKeyInput(w.Isk(p), w.sid));
    if MacMessage(y, ad) != MacMessage(y', ad') || p.sha512(keyV) != p.sha512(keyW) then
      MacClash(p.sha512(keyV), MacMessage(y, ad), p.sha512(keyW), MacMessage(y', ad'))
    else if keyV != keyW then
      HashClash(keyV, keyW)
    else
      HashClash(v.Material(), w.Material())
  }

  /** Equal tags certify equal views and equal authenticated messages, or the
      computed clash breaks a primitive. */
  lemma EqualTags(p: Primitives, v: View, y: Bytes, ad: Bytes, w: View, y': Bytes, ad': Bytes)
    requires v.Tag(p, y, ad) == w.Tag(p, y', ad')
    ensures (v == w && y == y' && ad == ad') || TagClash(p, v, y, ad, w, y', ad').Breaks(p)
  {
    var (keyV, keyW) := (MacKeyInput(v.Isk(p), v.sid), MacKeyInput(w.Isk(p), w.sid));
    if MacMessage(y, ad) == MacMessage(y', ad') && keyV == keyW {
      MacMessageInjective(y, ad, y', ad');
      MacKeyInputInjective(v.Isk(p), v.sid, w.Isk(p), w.sid);
      if v.Material() == w.Material() {
        IskMaterialInjective(v.sid, v.k, v.ya, v.ada, v.yb, v.adb, w.sid, w.k, w.ya, w.ada, w.yb, w.adb);
      }
    }
  }

  /** The equal-tag test of both Finish methods rejects exactly the exchanges in
      which the two parties authenticate the same share and associated data. */
  lemma ReflectionTestExact(p: Primitives, v: View)
    ensures v.ya == v.yb && v.ada == v.adb ==> v.InitiatorTag(p) == v.ResponderTag(p)
    ensures v.InitiatorTag(p) == v.ResponderTag(p) ==>
              (v.ya == v.yb && v.ada == v.adb) || TagClash(p, v, v.ya, v.ada, v, v.yb, v.adb).Breaks(p)
  {
    if v.InitiatorTag(p) == v.ResponderTag(p) {
      EqualTags(p, v, v.ya, v.ada, v, v.yb, v.adb);
    }
  }
}
