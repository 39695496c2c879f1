// Validation of a peer's public share. Source: peer_share.go.
module PeerShare {
  import opened ByteStrings
  import opened Errors
  import opened Framing
  import opened Suite

  function DecodePublicShare(p: Primitives, encoded: Bytes): Result<nat>
  {
    if |encoded| != POINT_SIZE then Err(Error([Abort], None))
    else
      match p.decode(encoded)
      case None => Err(Error([Abort, PeerShareEncoding], None))
      case Some(e) =>
        if p.encode(e) == Zeros(POINT_SIZE) then Err(Error([Abort, PeerShareIdentity], None)) else Ok(e)
  }

  function ScalarMultVFYElement(p: Primitives, s: nat, e: nat): Result<Bytes>
  {
    var out := p.encode(p.mul(s, e));
    if out == Zeros(POINT_SIZE) then Err(Error([Abort], None)) else Ok(out)
  }

  function ScalarMultVFY(p: Primitives, s: nat, encoded: Bytes): Result<Bytes>
  {
    match DecodePublicShare(p, encoded)
    case Err(e) => Err(e)
    case Ok(e) => ScalarMultVFYElement(p, s, e)
  }

  /** Rewraps the two exported sentinels with the share's role. */
  function WrapError(role: ShareRole, e: Error): Error
  {
    if e.Is(PeerShareEncoding) then Error([Abort, PeerShareEncoding], Some(role))
    else if e.Is(PeerShareIdentity) then Error([Abort, PeerShareIdentity], Some(role))
    else e
  }

  function WithRole<T>(role: ShareRole, r: Result<T>): Result<T>
  {
    match r
    case Ok(v) => Ok(v)
    case Err(e) => Err(WrapError(role, e))
  }

  function Decode(role: ShareRole, p: Primitives, encoded: Bytes): Result<nat>
  {
    WithRole(role, DecodePublicShare(p, encoded))
  }

  function SharedSecret(role: ShareRole, p: Primitives, s: nat, encoded: Bytes): Result<Bytes>
  {
    WithRole(role, ScalarMultVFY(p, s, encoded))
  }

  function SharedSecretElement(role: ShareRole, p: Primitives, s: nat, e: nat): Result<Bytes>
  {
    WithRole(role, ScalarMultVFYElement(p, s, e))
  }

  /** Decoding once and multiplying the element later gives the secret, or the
      very error, of decoding inside the multiplication. */
  lemma DecodeOnceRefines(role: ShareRole, p: Primitives, s: nat, encoded: Bytes)
    ensures SharedSecret(role, p, s, encoded)
         == match Decode(role, p, encoded)
            case Err(e) => Err(e)
            case Ok(e) => SharedSecretElement(role, p, s, e)
  {
  }

  /** A share is accepted exactly when it is the encoding of a non-identity
      element; otherwise it fails for exactly one of three reasons, with one
      Abort wrap, and names its role unless only the length is wrong. */
  lemma ShareClassification(role: ShareRole, p: Primitives, encoded: Bytes)
    requires p.Laws()
    ensures Decode(role, p, encoded).Ok? <==> exists e: nat :: 0 < e < p.order && encoded == p.encode(e)
    ensures forall e: nat | 0 < e < p.order && encoded == p.encode(e) :: Decode(role, p, encoded) == Ok(e)
    ensures Decode(role, p, encoded).Err? ==>
              var err := Decode(role, p, encoded).error;
              && multiset(err.wraps)[Abort] == 1
              && (err == Error([Abort], None) <==> |encoded| != POINT_SIZE)
              && (err == Error([Abort, PeerShareIdentity], Some(role)) <==> encoded == Zeros(POINT_SIZE))
              && (err == Error([Abort, PeerShareEncoding], Some(role)) <==>
                  |encoded| == POINT_SIZE && forall e: nat | e < p.order :: encoded != p.encode(e))
  {
    if |encoded| == POINT_SIZE && p.decode(encoded).Some? {
      var e := p.decode(encoded).value;
      assert p.encode(e) == encoded;
      assert p.decode(p.encode(0)) == Some(0);
    }
    forall e: nat | 0 < e < p.order && encoded == p.encode(e)
      ensures Decode(role, p, encoded) == Ok(e)
    {
      assert p.decode(p.encode(e)) == Some(e) && p.decode(p.encode(0)) == Some(0);
    }
  }

  /** The neutral-element check cannot fire for a share that was accepted and a
      scalar that was sampled. */
  lemma SharedSecretNeverNeutral(role: ShareRole, p: Primitives, s: nat, e: nat)
    requires p.Laws() && 0 < s < p.order && 0 < e < p.order
    ensures SharedSecretElement(role, p, s, e) == Ok(p.encode(p.mul(s, e)))
    ensures p.encode(p.mul(s, e)) != Zeros(POINT_SIZE)
  {
    MulNonzero(p, s, e);
    var m := p.mul(s, e);
    assert p.decode(p.encode(m)) == Some(m) && p.decode(p.encode(0)) == Some(0);
  }

  /** It does fire for the zero scalar, without naming a role. */
  lemma ZeroScalarIsNeutral(role: ShareRole, p: Primitives, e: nat)
    requires p.Laws()
    ensures SharedSecretElement(role, p, 0, e) == Err(Error([Abort], None))
  {
    MulSwap(p, e, 0);
  }
}
