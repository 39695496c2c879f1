// The two role cores: construction, Finish and the clearing of secrets.
// Source: core.go, crypto.go (calculateGenerator).
module Cores {
  import opened ByteStrings
  import opened CallerInputs
  import opened Errors
  import opened HashInputs
  import opened LengthValue
  import opened Sampling
  import opened Sessions
  import opened Suite
  import opened Transcripts
  import PeerShare
  import Protocol

  method CalculateGenerator(p: Primitives, prs: Bytes, ci: Bytes, sid: Bytes)
    returns (g: nat, ghost scratch: set<array<byte>>)
    ensures g == p.Generator(prs, ci, sid)
    ensures fresh(scratch) && forall a | a in scratch :: Wiped(a)
    ensures forall o: object | Store(o) && fresh(o) :: o in scratch
  {
    var genStr := LvCatInto([DSI, prs, Zeros(ZpadLength(DSI, prs, BLOCK_SIZE)), ci, sid]);
    assert genStr.data[..] == genStr.Contents();
    var digest := p.sha512(genStr.data[..]);
    var hash := FromSeq(digest);
    ClearBytes(genStr.data);
    g := p.fromUniform(digest);
    ClearBytes(hash);
    scratch := {genStr.data, hash};
  }

  /** The start of both constructors: the password is overwritten as soon as
      the generator is known, before randomness is read. */
  method GeneratorAndScalar(p: Primitives, ni: NormalizedSlices, random: RandomSource)
    returns (g: nat, y: Result<Scalar>, ghost scratch: set<array<byte>>)
    requires p.order > TWO_252 && ni.PasswordApart()
    modifies random, ni.password
    ensures g == p.Generator(old(ni.password[..]), ni.ci[..], ni.sid[..])
    ensures match Sampled(old(random.stream))
            case None => y == Err(ERR_RANDOMNESS)
            case Some(s) => y.Ok? && fresh(y.value) && y.value.v == s.scalar
    ensures Wiped(ni.password)
    ensures fresh(scratch) && forall a | a in scratch :: Wiped(a)
    ensures forall o: object | Store(o) && fresh(o) :: o in scratch || (y.Ok? && o == y.value)
  {
    ghost var s1, s2;
    g, s1 := CalculateGenerator(p, ni.password[..], ni.ci[..], ni.sid[..]);
    ClearBytes(ni.password);
    y, s2 := SampleScalar(p, random);
    scratch := s1 + {s2};
  }

  class InitiatorCore {
    var scalar: Scalar?
    const sid: array<byte>
    const ya: array<byte>
    const ada: array<byte>
    const peerID: array<byte>

    ghost function Public(): set<array<byte>> { {sid, ya, ada, peerID} }

    ghost predicate Holds(v: Protocol.InitiatorCore)
      reads this, scalar, Public()
    {
      && scalar != null && scalar.v == v.scalar
      && sid[..] == v.sid && ya[..] == v.ya && ada[..] == v.ada && peerID[..] == v.peerID
    }

    constructor (scalar: Scalar, sid: array<byte>, ya: array<byte>, ada: array<byte>, peerID: array<byte>)
      ensures this.scalar == scalar && fresh(Public())
      ensures Holds(Protocol.InitiatorCore(scalar.v, sid[..], ya[..], ada[..], peerID[..]))
      ensures forall o: object | Store(o) && fresh(o) :: o in Public()
    {
      var a := Clone(sid);
      var b := Clone(ya);
      var c := Clone(ada);
      var d := Clone(peerID);
      this.scalar := scalar;
      this.sid, this.ya, this.ada, this.peerID := a, b, c, d;
    }

    /** Verifies the responder's tag, refuses it if it is the initiator's own,
        and only then gives out a tag and a session. */
    method Finish(p: Primitives, ghost v: Protocol.InitiatorCore, peerYb: Bytes, peerAdb: Bytes, peerTag: Bytes)
      returns (r: Result<(array<byte>, Session)>, ghost scratch: set<array<byte>>, ghost spare: set<array<byte>>)
      requires Holds(v)
      ensures match Protocol.InitiatorFinishCore(p, v, peerYb, peerAdb, peerTag)
              case Err(e) => r == Err(e)
              case Ok(c) =>
                && r.Ok? && r.value.0[..] == c.tag && r.value.1.Holds(c.session)
                && fresh(r.value.0) && fresh(r.value.1) && fresh(r.value.1.state) && fresh(r.value.1.Owned())
                && r.value.0 !in scratch && r.value.1.Owned() !! scratch
      ensures fresh(scratch) && fresh(spare) && forall a | a in scratch :: Wiped(a)
      ensures match PeerShare.SharedSecret(ResponderShare, p, v.scalar, peerYb)
              case Err(_) => spare == {}
              case Ok(k) => forall a | a in spare :: LeftOver(a, p, Protocol.InitiatorView(v, k, peerYb, peerAdb))
      ensures forall o: object | Store(o) && fresh(o) ::
                o in scratch + spare || (r.Ok? && o in {r.value.0} + r.value.1.Owned())
    {
      var shared := PeerShare.SharedSecret(ResponderShare, p, scalar.v, peerYb);
      if shared.Err? {
        return Err(shared.error), {}, {};
      }
      var k := FromSeq(shared.value);
      r, scratch, spare := Confirm(p, v, k[..], peerYb, peerAdb, peerTag);
      ClearBytes(k);
      scratch := scratch + {k};
    }

    /** Finish once the shared secret k is known. */
    method Confirm(p: Primitives, ghost v: Protocol.InitiatorCore, k: Bytes, peerYb: Bytes, peerAdb: Bytes, peerTag: Bytes)
      returns (r: Result<(array<byte>, Session)>, ghost scratch: set<array<byte>>, ghost spare: set<array<byte>>)
      requires Holds(v)
      ensures var w := Protocol.InitiatorView(v, k, peerYb, peerAdb);
              if w.ResponderTag(p) != peerTag || w.InitiatorTag(p) == peerTag then r == Err(ERR_CONFIRMATION_FAILED)
              else
                && r.Ok? && r.value.0[..] == w.InitiatorTag(p)
                && r.value.1.Holds(Protocol.Session(w.Isk(p), w.TranscriptID(p), peerAdb, v.peerID))
                && fresh(r.value.0) && fresh(r.value.1) && fresh(r.value.1.state) && fresh(r.value.1.Owned())
                && r.value.0 !in scratch && r.value.1.Owned() !! scratch
      ensures fresh(scratch) && forall a | a in scratch :: Wiped(a)
      ensures fresh(spare) && forall a | a in spare :: LeftOver(a, p, Protocol.InitiatorView(v, k, peerYb, peerAdb))
      ensures forall o: object | Store(o) && fresh(o) ::
                o in scratch + spare || (r.Ok? && o in {r.value.0} + r.value.1.Owned())
    {
      ghost var w := Protocol.InitiatorView(v, k, peerYb, peerAdb);
      var tr, isk, tagA;
      tr, isk, tagA, scratch, spare := VerifyOverTranscript(p, k, peerYb, peerAdb, peerTag, w);
      scratch := scratch + {isk};
      if tagA.None? {
        ClearBytes(isk);
        return Err(ERR_CONFIRMATION_FAILED), scratch, spare;
      }
      var id := p.sha512(SidOutputInput(tr.transcript[..]));
      var session := new Session(isk, id, peerAdb, peerID);
      ClearBytes(isk);
      return Ok((tagA.value, session)), scratch, spare;
    }

    /** The comparisons over a new transcript, which is left behind. */
    method VerifyOverTranscript(p: Primitives, k: Bytes, peerYb: Bytes, peerAdb: Bytes, peerTag: Bytes, ghost w: View)
      returns (tr: Transcript, isk: array<byte>, tagA: Option<array<byte>>,
               ghost scratch: set<array<byte>>, ghost spare: set<array<byte>>)
      requires w == View(sid[..], k, ya[..], ada[..], peerYb, peerAdb)
      ensures fresh(tr) && tr.Holds(w.ya, w.ada, w.yb, w.adb) && isk !in tr.Five()
      ensures fresh(isk) && isk[..] == w.Isk(p) && isk !in scratch + spare
      ensures tagA.Some? <==> w.ResponderTag(p) == peerTag && w.InitiatorTag(p) != peerTag
      ensures tagA.Some? ==> fresh(tagA.value) && tagA.value[..] == w.InitiatorTag(p)
                             && tagA.value != isk && tagA.value !in scratch
      ensures fresh(scratch) && forall a | a in scratch :: Wiped(a)
      ensures fresh(spare) && forall a | a in spare :: LeftOver(a, p, w)
      ensures forall o: object | Store(o) && fresh(o) :: o in scratch + spare + {isk} || (tagA.Some? && o == tagA.value)
    {
      ghost var s1, s2;
      tr, s1 := NewTranscript(ya[..], ada[..], peerYb, peerAdb);
      isk, tagA, scratch, s2 := VerifyThenTag(p, tr, k, peerTag, w);
      spare := s1 + tr.Five() + s2;
    }

    /** The two comparisons: the peer's tag must be the expected one, and must
        not be the tag about to be released. */
    method VerifyThenTag(p: Primitives, tr: Transcript, k: Bytes, peerTag: Bytes, ghost w: View)
      returns (isk: array<byte>, tagA: Option<array<byte>>, ghost scratch: set<array<byte>>, ghost spare: set<array<byte>>)
      requires tr.Holds(w.ya, w.ada, w.yb, w.adb) && sid[..] == w.sid && k == w.k
      ensures fresh(isk) && isk[..] == w.Isk(p) && isk !in scratch + spare
      ensures tagA.Some? <==> w.ResponderTag(p) == peerTag && w.InitiatorTag(p) != peerTag
      ensures tagA.Some? ==> fresh(tagA.value) && tagA.value[..] == w.InitiatorTag(p)
                             && tagA.value != isk && tagA.value !in scratch
      ensures fresh(scratch) && forall a | a in scratch :: Wiped(a)
      ensures fresh(spare) && forall a | a in spare :: LeftOver(a, p, w)
      ensures forall o: object | Store(o) && fresh(o) :: o in scratch + spare + {isk} || (tagA.Some? && o == tagA.value)
    {
      var expectedB;
      isk, expectedB, scratch, spare := DeriveWithResponderTag(p, sid[..], k, tr, w);
      spare := spare + {expectedB};
      if expectedB[..] != peerTag {
        return isk, None, scratch, spare;
      }
      var tag, s, s' := ComputeTag(p, isk[..], sid[..], tr.ya[..], tr.ada[..]);
      scratch, spare := scratch + s, spare + s';
      if tag[..] == peerTag {
        return isk, None, scratch, spare + {tag};
      }
      return isk, Some(tag), scratch, spare;
    }

    /** Zeroes then drops the scalar; harmless a second time. */
    method Clear()
      modifies this, scalar
      ensures scalar == null
      ensures old(scalar) != null ==> old(scalar).v == 0
      ensures forall o: object | Store(o) :: !fresh(o)
    {
      if scalar != null {
        scalar.v := 0;
      }
      scalar := null;
    }
  }

  method NewInitiatorCore(p: Primitives, ni: NormalizedSlices, random: RandomSource)
    returns (r: Result<(InitiatorCore, array<byte>)>, ghost scratch: set<array<byte>>)
    requires p.order > TWO_252 && ni.PasswordApart()
    modifies random, ni.password
    ensures match Protocol.NewInitiator(p, old(ni.Value()), old(random.stream))
            case Err(e) => r == Err(e)
            case Ok(s) =>
              && r.Ok? && r.value.0.Holds(s.core) && r.value.1[..] == s.ya
              && fresh(r.value.0) && fresh(r.value.0.scalar) && fresh(r.value.0.Public()) && fresh(r.value.1)
    ensures Wiped(ni.password)
    ensures fresh(scratch) && forall a | a in scratch :: Wiped(a)
    ensures forall o: object | Store(o) && fresh(o) ::
              o in scratch || (r.Ok? && (o == r.value.0.scalar || o in r.value.0.Public() + {r.value.1}))
  {
    var g, y;
    g, y, scratch := GeneratorAndScalar(p, ni, random);
    if y.Err? {
      return Err(y.error), scratch;
    }
    var ya := FromSeq(p.encode(p.mul(y.value.v, g)));
    var core := new InitiatorCore(y.value, ni.sid, ya, ni.ad, ni.responderID);
    return Ok((core, ya)), scratch;
  }

  class ResponderCore {
    var isk: array?<byte>
    const transcript: Transcript
    const sid: array<byte>
    const peerID: array<byte>
    /** The arrays that Clear overwrites, until it has. */
    ghost var secrets: set<array<byte>>

    ghost function Public(): set<array<byte>> { {sid, peerID} }

    ghost predicate Holds(v: Protocol.ResponderCore)
      reads this, transcript, secrets, Public()
    {
      && isk != null && transcript.Full() && secrets == {isk} + transcript.Five()
      && isk[..] == v.isk
      && transcript.Holds(v.ya, v.ada, v.yb, v.adb)
      && sid[..] == v.sid && peerID[..] == v.peerID
      && secrets !! Public()
    }

    constructor (isk: array<byte>, transcript: Transcript, sid: array<byte>, peerID: array<byte>)
      requires transcript.Full()
      ensures this.isk == isk && this.transcript == transcript && fresh(Public())
      ensures secrets == {isk} + transcript.Five()
      ensures this.sid[..] == sid[..] && this.peerID[..] == peerID[..]
      ensures forall o: object | Store(o) && fresh(o) :: o in Public()
    {
      var a := Clone(sid);
      var b := Clone(peerID);
      this.isk, this.transcript, this.sid, this.peerID := isk, transcript, a, b;
      this.secrets := {isk} + transcript.Five();
    }

    /** The tags it computes stay in memory, and the sid ahead of the key. */
    method Finish(p: Primitives, ghost v: Protocol.ResponderCore, peerTag: Bytes)
      returns (r: Result<Session>, ghost scratch: set<array<byte>>, ghost spare: set<array<byte>>)
      requires Holds(v)
      ensures match Protocol.ResponderFinishCore(p, v, peerTag)
              case Err(e) => r == Err(e)
              case Ok(s) => r.Ok? && r.value.Holds(s) && fresh(r.value) && fresh(r.value.state) && fresh(r.value.Owned())
      ensures fresh(scratch) && forall a | a in scratch :: Wiped(a)
      ensures fresh(spare) && forall a | a in spare :: TagLeftOver(a, p, v)
      ensures forall o: object | Store(o) && fresh(o) :: o in scratch + spare || (r.Ok? && o in r.value.Owned())
    {
      var expectedA, s1, s2 := ComputeTag(p, isk[..], sid[..], transcript.ya[..], transcript.ada[..]);
      scratch, spare := s1, s2 + {expectedA};
      if expectedA[..] != peerTag {
        return Err(ERR_CONFIRMATION_FAILED), scratch, spare;
      }
      var tagB, s3, s4 := ComputeTag(p, isk[..], sid[..], transcript.yb[..], transcript.adb[..]);
      scratch, spare := scratch + s3, spare + s4 + {tagB};
      if tagB[..] == peerTag {
        return Err(ERR_CONFIRMATION_FAILED), scratch, spare;
      }
      var id := p.sha512(SidOutputInput(transcript.transcript[..]));
      var session := new Session(isk, id, transcript.ada[..], peerID);
      return Ok(session), scratch, spare;
    }

    /** Zeroes then drops the key and the transcript; harmless a second time. */
    method Clear()
      modifies this, isk, transcript, transcript.Owned()
      ensures isk == null && transcript.Owned() == {} && secrets == {}
      ensures old(isk) != null ==> Wiped(old(isk))
      ensures forall a | a in old(transcript.Owned()) :: Wiped(a)
      ensures forall o: object | Store(o) :: !fresh(o)
    {
      ClearBytes(isk);
      isk := null;
      transcript.Clear();
      secrets := {};
    }
  }

  ghost predicate TagLeftOver(a: array<byte>, p: Primitives, v: Protocol.ResponderCore)
    reads a
  {
    || MacPrefix(a, v.sid)
    || a[..] == Protocol.StoredTag(p, v, v.ya, v.ada) || a[..] == Protocol.StoredTag(p, v, v.yb, v.adb)
  }

  method NewResponderCore(p: Primitives, ni: NormalizedSlices, peerYa: Bytes, peerAda: Bytes, random: RandomSource)
    returns (r: Result<(ResponderCore, array<byte>, array<byte>)>, ghost scratch: set<object>, ghost spare: set<array<byte>>)
    requires p.order > TWO_252 && ni.PasswordApart()
    modifies random, ni.password
    ensures match Protocol.NewResponder(p, old(ni.Value()), peerYa, peerAda, old(random.stream))
            case Err(e) => r == Err(e) && forall a | a in spare :: a[..] == DrawnShare(p, old(ni.Value()), old(random.stream))
            case Ok(s) =>
              && r.Ok? && r.value.0.Holds(s.core) && r.value.1[..] == s.yb && r.value.2[..] == s.tagB
              && AllLeft(spare, p, s.view)
    ensures r.Ok? ==>
              && fresh(r.value.0) && fresh(r.value.0.transcript)
              && fresh(r.value.0.secrets) && fresh(r.value.0.Public()) && fresh(r.value.1) && fresh(r.value.2)
    ensures PeerShare.Decode(InitiatorShare, p, peerYa).Ok? ==> Wiped(ni.password)
    ensures PeerShare.Decode(InitiatorShare, p, peerYa).Err? ==>
              ni.password[..] == old(ni.password[..]) && random.stream == old(random.stream)
    ensures fresh(scratch) && forall o | o in scratch :: Cleared(o)
    ensures fresh(spare)
    ensures p.Valid() && r.Err? ==> spare == {}
    ensures forall o: object | Store(o) && fresh(o) :: o in scratch || o in spare || (r.Ok? && o in r.value.0.secrets + r.value.0.Public())
  {
    // The share is validated before any randomness or password is used.
    var element := PeerShare.Decode(InitiatorShare, p, peerYa);
    if element.Err? {
      return Err(element.error), {}, {};
    }
    var g, y, s1 := GeneratorAndScalar(p, ni, random);
    if y.Err? {
      return Err(y.error), s1, {};
    }
    ghost var s2;
    Protocol.RespondNeverNeutral(p, old(ni.Value()), peerYa, peerAda, old(random.stream));
    r, s2, spare := RespondWithScalar(p, ni, old(ni.Value()), peerYa, peerAda, element.value, g, y.value.v);
    y.value.v := 0;
    scratch := s1 + s2 + {y.value};
  }

  /** The share that the first usable scalar of the stream gives. */
  function DrawnShare(p: Primitives, ni: Protocol.Normalized, random: Bytes): Bytes
  {
    match Sampled(random)
    case None => []
    case Some(y) => p.encode(p.mul(y.scalar, p.Generator(ni.password, ni.ci, ni.sid)))
  }

  /** The constructor once the scalar y is drawn; the password is gone. */
  method RespondWithScalar(p: Primitives, ni: NormalizedSlices, ghost v: Protocol.Normalized,
                           peerYa: Bytes, peerAda: Bytes, element: nat, g: nat, y: nat)
    returns (r: Result<(ResponderCore, array<byte>, array<byte>)>, ghost scratch: set<array<byte>>, ghost spare: set<array<byte>>)
    requires g == p.Generator(v.password, v.ci, v.sid)
    requires ni.sid[..] == v.sid && ni.ad[..] == v.ad && ni.initiatorID[..] == v.initiatorID
    ensures match Protocol.RespondWith(p, v, peerYa, peerAda, element, y)
            case Err(e) => r == Err(e) && forall a | a in spare :: a[..] == p.encode(p.mul(y, g))
            case Ok(s) =>
              && r.Ok? && r.value.0.Holds(s.core) && r.value.1[..] == s.yb && r.value.2[..] == s.tagB
              && AllLeft(spare, p, s.view)
    ensures r.Ok? ==>
              && fresh(r.value.0) && fresh(r.value.0.transcript)
              && fresh(r.value.0.secrets) && fresh(r.value.0.Public()) && fresh(r.value.1) && fresh(r.value.2)
    ensures fresh(scratch) && fresh(spare) && forall a | a in scratch :: Wiped(a)
    ensures forall o: object | Store(o) && fresh(o) ::
              o in scratch + spare || (r.Ok? && o in r.value.0.secrets + r.value.0.Public())
  {
    var yb := FromSeq(p.encode(p.mul(y, g)));
    var shared := PeerShare.SharedSecretElement(InitiatorShare, p, y, element);
    if shared.Err? {
      return Err(shared.error), {}, {yb};
    }
    var w := View(ni.sid[..], shared.value, peerYa, peerAda, yb[..], ni.ad[..]);
    assert Protocol.RespondWith(p, v, peerYa, peerAda, element, y).value.view == w;
    var core, tagB;
    core, tagB, scratch, spare := RespondWithSecret(p, ni, w);
    spare := spare + {yb};
    r := Ok((core, yb, tagB));
  }

  /** The constructor once K is known: its buffer is overwritten. */
  method RespondWithSecret(p: Primitives, ni: NormalizedSlices, w: View)
    returns (core: ResponderCore, tagB: array<byte>, ghost scratch: set<array<byte>>, ghost spare: set<array<byte>>)
    requires ni.sid[..] == w.sid && ni.ad[..] == w.adb
    ensures core.Holds(Protocol.ResponderCore(w.Isk(p), w.sid, w.ya, w.ada, w.yb, w.adb, ni.initiatorID[..]))
    ensures tagB[..] == w.ResponderTag(p)
    ensures fresh(core) && fresh(core.transcript) && fresh(core.secrets)
    ensures fresh(core.Public()) && fresh(tagB)
    ensures fresh(scratch) && forall a | a in scratch :: Wiped(a)
    ensures fresh(spare) && AllLeft(spare, p, w)
    ensures forall o: object | Store(o) && fresh(o) :: o in scratch + spare + core.secrets + core.Public()
  {
    var k := FromSeq(w.k);
    core, tagB, scratch, spare := KeyResponder(p, ni, w.(k := k[..]));
    ClearBytes(k);
    scratch := scratch + {k};
  }

  /** Transcript, ISK and tag of the responder's view. */
  method KeyResponder(p: Primitives, ni: NormalizedSlices, w: View)
    returns (core: ResponderCore, tagB: array<byte>, ghost scratch: set<array<byte>>, ghost spare: set<array<byte>>)
    requires ni.sid[..] == w.sid && ni.ad[..] == w.adb
    ensures core.Holds(Protocol.ResponderCore(w.Isk(p), w.sid, w.ya, w.ada, w.yb, w.adb, ni.initiatorID[..]))
    ensures tagB[..] == w.ResponderTag(p)
    ensures fresh(core) && fresh(core.transcript) && fresh(core.secrets)
    ensures fresh(core.Public()) && fresh(tagB)
    ensures fresh(scratch) && forall a | a in scratch :: Wiped(a)
    ensures fresh(spare) && AllLeft(spare, p, w)
    ensures forall o: object | Store(o) && fresh(o) :: o in scratch + spare + core.secrets + core.Public()
  {
    var tr, isk;
    ghost var s1, s2;
    tr, s1 := NewTranscript(w.ya, w.ada, w.yb, ni.ad[..]);
    isk, tagB, scratch, s2 := DeriveWithResponderTag(p, ni.sid[..], w.k, tr, w);
    core := new ResponderCore(isk, tr, ni.sid, ni.initiatorID);
    spare := s1 + s2 + {tagB};
  }
}
