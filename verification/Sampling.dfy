// Rejection sampling of a nonzero scalar. Source: crypto.go (sampleScalar).
module Sampling {
  import opened ByteStrings
  import opened Errors
  import opened Suite

  const SCALAR_SIZE := 32
  const MAX_TRIES := 128

  // ----- specification -----

  function LittleEndian(s: Bytes): nat
  {
    if s == [] then 0 else s[0] + 256 * LittleEndian(s[1..])
  }

  /** The value a 32-byte block offers: its low 252 bits. */
  function Candidate(block: Bytes): nat
  {
    LittleEndian(block) % TWO_252
  }

  datatype Sample = Sample(scalar: nat, consumed: nat)

  /** The first nonzero candidate among the next `tries` blocks. */
  function FirstScalar(stream: Bytes, tries: nat): (r: Option<Sample>)
    ensures r.Some? ==> 0 < r.value.scalar < TWO_252 && r.value.consumed <= |stream|
    decreases tries
  {
    if tries == 0 || |stream| < SCALAR_SIZE then None
    else if Candidate(stream[..SCALAR_SIZE]) != 0 then
      Some(Sample(Candidate(stream[..SCALAR_SIZE]), SCALAR_SIZE))
    else
      match FirstScalar(stream[SCALAR_SIZE..], tries - 1)
      case None => None
      case Some(s) => Some(Sample(s.scalar, SCALAR_SIZE + s.consumed))
  }

  function Sampled(stream: Bytes): Option<Sample> { FirstScalar(stream, MAX_TRIES) }

  function Block(stream: Bytes, i: nat): Bytes
    requires SCALAR_SIZE * (i + 1) <= |stream|
  {
    stream[SCALAR_SIZE * i..SCALAR_SIZE * (i + 1)]
  }

  ghost predicate ZeroBefore(stream: Bytes, n: nat)
  {
    forall j: nat | j < n && SCALAR_SIZE * (j + 1) <= |stream| :: Candidate(Block(stream, j)) == 0
  }

  ghost predicate IsFirst(stream: Bytes, tries: nat, i: nat)
  {
    && i < tries
    && SCALAR_SIZE * (i + 1) <= |stream|
    && Candidate(Block(stream, i)) != 0
    && ZeroBefore(stream, i)
  }

  /** Sampling succeeds with the first complete block, among the first `tries`,
      whose candidate is nonzero, having read 32 bytes a try; it fails exactly
      when there is no such block. */
  lemma {:induction false} FirstScalarIsFirst(stream: Bytes, tries: nat) returns (i: nat)
    ensures FirstScalar(stream, tries).Some? ==>
              IsFirst(stream, tries, i) &&
              FirstScalar(stream, tries) == Some(Sample(Candidate(Block(stream, i)), SCALAR_SIZE * (i + 1)))
    ensures FirstScalar(stream, tries).None? ==> ZeroBefore(stream, tries)
    decreases tries
  {
    i := 0;
    if tries > 0 && |stream| >= SCALAR_SIZE {
      assert Block(stream, 0) == stream[..SCALAR_SIZE];
      if Candidate(Block(stream, 0)) == 0 {
        var rest := stream[SCALAR_SIZE..];
        i := FirstScalarIsFirst(rest, tries - 1);
        var n := if FirstScalar(rest, tries - 1).Some? then i else tries - 1;
        ShiftZero(stream, n);
        if FirstScalar(rest, tries - 1).Some? {
          BlockShift(stream, i + 1);
          i := i + 1;
        }
      }
    }
  }

  /** What is sampled, in numbers: the low 252 bits of the first of at most 128
      blocks of 32 bytes in which they are not all zero, and nothing when there
      is no such block. */
  lemma SampledExactly(stream: Bytes)
    ensures Sampled(stream).Some? <==>
              exists i: nat :: i < 128 && 32 * i + 32 <= |stream| && LittleEndian(stream[32 * i..32 * i + 32]) % TWO_252 != 0
    ensures forall i: nat | i < 128 && 32 * i + 32 <= |stream| && LittleEndian(stream[32 * i..32 * i + 32]) % TWO_252 != 0
              && (forall j: nat | j < i :: LittleEndian(stream[32 * j..32 * j + 32]) % TWO_252 == 0) ::
              Sampled(stream) == Some(Sample(LittleEndian(stream[32 * i..32 * i + 32]) % TWO_252, 32 * i + 32))
  {
    var k := FirstScalarIsFirst(stream, 128);
    if Sampled(stream).None? {
      forall i: nat | i < 128 && 32 * i + 32 <= |stream|
        ensures LittleEndian(stream[32 * i..32 * i + 32]) % TWO_252 == 0
      {
        assert Candidate(Block(stream, i)) == 0;
      }
    } else {
      assert LittleEndian(stream[32 * k..32 * k + 32]) % TWO_252 != 0;
      forall i: nat | i < 128 && 32 * i + 32 <= |stream| && LittleEndian(stream[32 * i..32 * i + 32]) % TWO_252 != 0
          && (forall j: nat | j < i :: LittleEndian(stream[32 * j..32 * j + 32]) % TWO_252 == 0)
        ensures i == k
      {
        assert Candidate(Block(stream, i)) != 0;
        if k < i {
          assert false;
        }
      }
    }
  }

  lemma BlockShift(stream: Bytes, j: nat)
    requires j > 0 && SCALAR_SIZE * (j + 1) <= |stream|
    ensures SCALAR_SIZE * j <= |stream[SCALAR_SIZE..]| && Block(stream, j) == Block(stream[SCALAR_SIZE..], j - 1)
  {
    var k := SCALAR_SIZE * (j - 1);
    assert SCALAR_SIZE * j == k + 32 && SCALAR_SIZE * (j + 1) == k + 64;
    assert stream[32..][k..k + 32] == stream[k + 32..k + 64];
  }

  lemma ShiftZero(stream: Bytes, n: nat)
    requires |stream| >= SCALAR_SIZE && Candidate(Block(stream, 0)) == 0
    requires ZeroBefore(stream[SCALAR_SIZE..], n)
    ensures ZeroBefore(stream, n + 1)
  {
    var rest := stream[SCALAR_SIZE..];
    forall j: nat | j < n + 1 && SCALAR_SIZE * (j + 1) <= |stream|
      ensures Candidate(Block(stream, j)) == 0
    {
      if j > 0 {
        BlockShift(stream, j);
      }
    }
  }

  // ----- masking -----

  lemma ScaleDigit(low: nat, v: nat, b: nat, p: nat)
    ensures low + 256 * (v + b * p) == (low + 256 * v) + b * (256 * p)
  {
  }

  lemma {:induction false} LittleEndianSnoc(s: Bytes, b: byte)
    ensures LittleEndian(s + [b]) == LittleEndian(s) + b * Pow2(8 * |s|)
    ensures LittleEndian(s) < Pow2(8 * |s|)
  {
    if s == [] {
      assert s + [b] == [b] && [b][1..] == [];
    } else {
      LittleEndianSnoc(s[1..], b);
      assert (s + [b])[1..] == s[1..] + [b];
      var p := Pow2(8 * (|s| - 1));
      EightBits(|s| - 1);
      ScaleDigit(s[0], LittleEndian(s[1..]), b, p);
    }
  }

  lemma Square(k: nat, v: nat)
    requires Pow2(k) == v
    ensures Pow2(2 * k) == v * v
  {
    Pow2Add(k, k);
  }

  lemma TopPower(n: nat)
    requires n == 31
    ensures 16 * Pow2(8 * n) == TWO_252
  {
    assert Pow2(3) == 8;
    Square(3, 8);
    Square(7, 0x80);
    Square(15, 0x8000);
    Square(n, 0x80000000);
    Square(2 * n, 0x4000000000000000);
    Square(4 * n, 0x10000000000000000000000000000000);
  }

  /** Clearing the top four bits of the last byte reduces modulo 2^252. */
  lemma MaskIsReduction(low: Bytes, top: byte)
    requires |low| == 31
    ensures BitAnd(top, 0x0f) < 256
    ensures LittleEndian(low + [BitAnd(top, 0x0f)]) == Candidate(low + [top])
  {
    assert Pow2(4) == 16;
    AndLowMask(top, 4);
    LittleEndianSnoc(low, top);
    LittleEndianSnoc(low, top % 16);
    TopPower(|low|);
    ReduceTop(LittleEndian(low), top, Pow2(8 * |low|));
  }

  lemma ReduceTop(v: nat, t: nat, p: nat)
    requires v < p
    ensures (v + t * p) % (16 * p) == v + (t % 16) * p
  {
    var q, r := t / 16, t % 16;
    Distribute(q, r, p);
    MulStep(r, 16, p);
    DivModUnique(v + t * p, 16 * p, q, v + r * p);
  }

  lemma Distribute(q: nat, r: nat, p: nat)
    ensures (16 * q + r) * p == q * (16 * p) + r * p
  {
  }

  // ----- the loop -----

  /** An io.Reader: it delivers `stream` and then fails. */
  class RandomSource {
    var stream: Bytes

    constructor (stream: Bytes)
      ensures this.stream == stream
      ensures forall o: object | Store(o) :: !fresh(o)
    {
      this.stream := stream;
    }

    /** io.ReadFull: fills b or reports that the stream ended first. */
    method ReadFull(b: array<byte>) returns (ok: bool)
      modifies this, b
      ensures ok == (old(|stream|) >= b.Length)
      ensures ok ==> b[..] == old(stream)[..b.Length] && stream == old(stream)[b.Length..]
      ensures forall o: object | Store(o) :: !fresh(o)
    {
      ok := |stream| >= b.Length;
      var n := if ok then b.Length else |stream|;
      forall i | 0 <= i < n {
        b[i] := stream[i];
      }
      stream := stream[n..];
    }
  }

  method MaskTop(b: array<byte>)
    requires b.Length == SCALAR_SIZE
    modifies b
    ensures LittleEndian(b[..]) == Candidate(old(b[..]))
    ensures forall o: object | Store(o) :: !fresh(o)
  {
    ghost var block := b[..];
    assert block == block[..31] + [block[31]];
    MaskIsReduction(block[..31], block[31]);
    b[31] := BitAnd(b[31], 0x0f);
    assert b[..] == block[..31] + [BitAnd(block[31], 0x0f)];
  }

  /** One round: a block is read and masked, or the stream has ended. */
  method ReadCandidate(r: RandomSource, b: array<byte>) returns (v: Option<nat>)
    requires b.Length == SCALAR_SIZE
    modifies r, b
    ensures v == if old(|r.stream|) < SCALAR_SIZE then None else Some(Candidate(old(r.stream)[..SCALAR_SIZE]))
    ensures v.Some? ==> r.stream == old(r.stream)[SCALAR_SIZE..]
    ensures forall o: object | Store(o) :: !fresh(o)
  {
    var ok := r.ReadFull(b);
    if !ok {
      return None;
    }
    MaskTop(b);
    return Some(LittleEndian(b[..]));
  }

  function AfterReading(used: nat, o: Option<Sample>): Option<Sample>
  {
    match o
    case None => None
    case Some(s) => Some(Sample(s.scalar, used + s.consumed))
  }

  method Draw(p: Primitives, r: RandomSource, b: array<byte>) returns (s: Result<Scalar>)
    requires p.order > TWO_252 && b.Length == SCALAR_SIZE
    modifies r, b
    ensures s.Ok? <==> Sampled(old(r.stream)).Some?
    ensures s.Ok? ==> fresh(s.value) && s.value.v == Sampled(old(r.stream)).value.scalar
    ensures s.Ok? ==> r.stream == old(r.stream)[Sampled(old(r.stream)).value.consumed..]
    ensures s.Err? ==> s.error == ERR_RANDOMNESS
    ensures forall o: object | Store(o) && fresh(o) :: s.Ok? && o == s.value
  {
    ghost var whole := r.stream;
    var tries: nat := MAX_TRIES;
    ghost var used: nat := 0;
    while tries > 0
      invariant used <= |whole| && r.stream == whole[used..]
      invariant Sampled(whole) == AfterReading(used, FirstScalar(r.stream, tries))
      invariant forall o: object | Store(o) :: !fresh(o)
    {
      var candidate := ReadCandidate(r, b);
      if candidate.None? {
        return Err(ERR_RANDOMNESS);
      }
      var v := candidate.value;
      if v >= p.order {
        // The canonical-encoding check cannot reject a masked sample.
        assert false;
      }
      if v != 0 {
        var scalar := new Scalar(v);
        return Ok(scalar);
      }
      used := used + SCALAR_SIZE;
      tries := tries - 1;
      assert r.stream == whole[used..];
    }
    return Err(ERR_RANDOMNESS);
  }

  /** The first of at most 128 blocks of 32 bytes whose low 252 bits are not all
      zero gives the scalar, and the stream is read up to its end; without such
      a block the call fails. */
  method SampleScalar(p: Primitives, r: RandomSource) returns (s: Result<Scalar>, ghost scratch: array<byte>)
    requires p.order > TWO_252
    modifies r
    ensures s.Ok? <==> Sampled(old(r.stream)).Some?
    ensures s.Ok? ==> fresh(s.value) && s.value.v == Sampled(old(r.stream)).value.scalar
    ensures s.Ok? ==> r.stream == old(r.stream)[Sampled(old(r.stream)).value.consumed..]
    ensures s.Err? ==> s.error == Error([Randomness], None)
    ensures var stream := old(r.stream);
            && (s.Ok? <==> exists i: nat :: i < 128 && 32 * i + 32 <= |stream|
                                            && LittleEndian(stream[32 * i..32 * i + 32]) % TWO_252 != 0)
            && (forall i: nat | i < 128 && 32 * i + 32 <= |stream| && LittleEndian(stream[32 * i..32 * i + 32]) % TWO_252 != 0
                  && (forall j: nat | j < i :: LittleEndian(stream[32 * j..32 * j + 32]) % TWO_252 == 0) ::
                  s.Ok? && s.value.v == LittleEndian(stream[32 * i..32 * i + 32]) % TWO_252 && r.stream == stream[32 * i + 32..])
    ensures fresh(scratch) && Wiped(scratch)
    ensures forall o: object | Store(o) && fresh(o) :: o == scratch || (s.Ok? && o == s.value)
  {
    SampledExactly(r.stream);
    var b := new byte[SCALAR_SIZE];
    s := Draw(p, r, b);
    ClearBytes(b);
    scratch := b;
  }
}
