// Start, Respond and the terminal calls: input, framing, core and lifecycle
// together. Source: api.go.
module Api {
  import opened ByteStrings
  import opened CallerInputs
  import opened Cores
  import opened Errors
  import opened Framing
  import opened LengthValue
  import opened Sampling
  import opened Sessions
  import opened Suite
  import opened Transcripts
  import Protocol
  import S = SingleUse

  /** Values whose copies share the state they point to; None is a nil receiver
      and a null state an uninitialized value. */
  datatype Initiator = Initiator(state: S.SingleUseState?<InitiatorCore>)

  datatype Responder = Responder(state: S.SingleUseState?<ResponderCore>)

  // ----- Start -----

  ghost predicate OpenInitiator(i: Initiator, v: Protocol.InitiatorCore)
    reads i.state, if i.state != null && i.state.core.Some? then {i.state.core.value, i.state.core.value.scalar} + i.state.core.value.Public() else {}
  {
    i.state != null && i.state.core.Some? && !i.state.used && i.state.core.value.Holds(v)
  }

  /** The byte arrays behind an initiator. */
  ghost function InitiatorArrays(i: Initiator): set<array<byte>>
  {
    if i.state != null && i.state.core.Some? then i.state.core.value.Public() else {}
  }

  /** What a successful Start gives out. */
  ghost function StartStores(r: Result<(Initiator, array<byte>)>): set<object?>
    reads if r.Ok? && r.value.0.state != null && r.value.0.state.core.Some? then {r.value.0.state.core.value} else {}
  {
    if r.Err? then {}
    else
      InitiatorArrays(r.value.0) + {r.value.1} +
      if r.value.0.state != null && r.value.0.state.core.Some? then {r.value.0.state.core.value.scalar} else {}
  }

  ghost predicate HoldsBytes(o: object, s: Bytes)
    reads o
  {
    o is array<byte> && (o as array<byte>)[..] == s
  }

  /** On every path the caller's slices are untouched, and whatever the call
      allocated is either given out or overwritten; only the array from which
      message A took the public share is neither. On success what is given out
      holds the accepted values. */
  method Start(p: Primitives, input: InputSlices, random: RandomSource) returns (r: Result<(Initiator, array<byte>)>)
    requires p.Valid()
    modifies random
    ensures match Protocol.Start(p, input.Value(), old(random.stream))
            case Err(e) => r == Err(e) && forall o: object | Store(o) && fresh(o) :: Cleared(o)
            case Ok(s) =>
              && r.Ok? && OpenInitiator(r.value.0, s.core) && r.value.1[..] == s.messageA
              && forall o: object | Store(o) && fresh(o) :: o in StartStores(r) || Cleared(o) || HoldsBytes(o, s.core.ya)
    ensures r.Ok? ==> fresh(r.value.0.state) && fresh(r.value.0.state.core.value) && fresh(r.value.0.state.core.value.scalar)
    ensures r.Ok? ==> fresh(InitiatorArrays(r.value.0)) && fresh(r.value.1) && r.value.1 !in InitiatorArrays(r.value.0)
    ensures Protocol.InputError(input.Value()).Some? ==> forall o: object | Store(o) :: !fresh(o)
  {
    var normalized;
    ghost var ledger, scratch, spare;
    normalized, ledger := NormalizeInput(input, Protocol.Initiator);
    if normalized.Err? {
      return Err(normalized.error);
    }
    r, scratch, spare := StartThenWipe(p, normalized.value, random);
  }

  /** Start after its first step. */
  method StartThenWipe(p: Primitives, ni: NormalizedSlices, random: RandomSource)
    returns (r: Result<(Initiator, array<byte>)>, ghost scratch: set<array<byte>>, ghost spare: set<array<byte>>)
    requires p.Valid() && ni.PasswordApart()
    modifies random, ni.Owned()
    ensures match Protocol.StartNormalized(p, old(ni.Value()), old(random.stream))
            case Err(e) => r == Err(e) && spare == {}
            case Ok(s) =>
              && r.Ok? && OpenInitiator(r.value.0, s.core) && r.value.1[..] == s.messageA
              && forall a | a in spare :: a[..] == s.core.ya
    ensures r.Ok? ==> fresh(r.value.0.state) && fresh(r.value.0.state.core.value) && fresh(r.value.0.state.core.value.scalar)
    ensures r.Ok? ==> fresh(InitiatorArrays(r.value.0)) && fresh(r.value.1) && r.value.1 !in InitiatorArrays(r.value.0)
    ensures forall a | a in ni.Owned() :: Wiped(a)
    ensures fresh(spare) && fresh(scratch) && forall a | a in scratch :: Wiped(a)
    ensures forall o: object | Store(o) && fresh(o) :: o in StartStores(r) || o in scratch + spare
  {
    r, scratch, spare := StartNormalized(p, ni, random);
    WipeAfterStart(ni, r);
  }

  /** Start between the two deferred wipes. */
  method StartNormalized(p: Primitives, ni: NormalizedSlices, random: RandomSource)
    returns (r: Result<(Initiator, array<byte>)>, ghost scratch: set<array<byte>>, ghost spare: set<array<byte>>)
    requires p.Valid() && ni.PasswordApart()
    modifies random, ni.password
    ensures match Protocol.StartNormalized(p, old(ni.Value()), old(random.stream))
            case Err(e) => r == Err(e) && spare == {}
            case Ok(s) =>
              && r.Ok? && OpenInitiator(r.value.0, s.core) && r.value.1[..] == s.messageA
              && forall a | a in spare :: a[..] == s.core.ya
    ensures r.Ok? ==> fresh(r.value.0.state) && fresh(r.value.0.state.core.value) && fresh(r.value.0.state.core.value.scalar)
    ensures r.Ok? ==> fresh(InitiatorArrays(r.value.0)) && fresh(r.value.1) && r.value.1 !in InitiatorArrays(r.value.0)
    ensures fresh(spare) && fresh(scratch) && forall a | a in scratch :: Wiped(a)
    ensures forall o: object | Store(o) && fresh(o) :: o in StartStores(r) || o in scratch + spare
  {
    var built;
    built, scratch := NewInitiatorCore(p, ni, random);
    if built.Err? {
      return Err(built.error), scratch, {};
    }
    var core, ya := built.value.0, built.value.1;
    var message := EncodeMessage(MESSAGE_A, [ni.sid[..], ya[..], ni.ad[..]]);
    assert message.data[..] == message.Contents();
    var state := new S.SingleUseState(Some(core));
    return Ok((Initiator(state), message.data)), scratch, {ya};
  }

  /** The deferred wipe does not reach what is returned. */
  method WipeAfterStart(ni: NormalizedSlices, ghost r: Result<(Initiator, array<byte>)>)
    requires r.Ok? ==> (InitiatorArrays(r.value.0) + {r.value.1}) !! ni.Owned()
    modifies ni.Owned()
    ensures forall a | a in ni.Owned() :: Wiped(a)
    ensures r.Ok? ==> forall v :: old(OpenInitiator(r.value.0, v)) ==> OpenInitiator(r.value.0, v)
    ensures r.Ok? ==> r.value.1[..] == old(r.value.1[..])
    ensures StartStores(r) == old(StartStores(r))
    ensures forall o: object | Store(o) :: !fresh(o)
  {
    ni.Wipe();
  }

  // ----- Respond -----

  ghost function ResponderObjects(c: ResponderCore): set<object> { {c, c.transcript} }

  /** What clearing a responder core overwrites. */
  ghost function SecretArrays(c: ResponderCore): set<array<byte>>
    reads c, c.transcript
  {
    Arrays(c.isk) + c.transcript.Owned()
  }

  ghost function ResponderArrays(c: ResponderCore): set<array<byte>>
    reads c
  {
    c.Public() + c.secrets
  }

  ghost predicate OpenResponder(i: Responder, v: Protocol.ResponderCore)
    reads i.state, if i.state != null && i.state.core.Some? then ResponderObjects(i.state.core.value) + ResponderArrays(i.state.core.value) else {}
  {
    i.state != null && i.state.core.Some? && !i.state.used && i.state.core.value.Holds(v)
  }

  /** As for Start. What is neither given out nor overwritten holds bytes of
      message A, of message B or of the sid. */
  method Respond(p: Primitives, input: InputSlices, messageA: Bytes, random: RandomSource)
    returns (r: Result<(Responder, array<byte>)>)
    requires p.Valid()
    modifies random
    ensures match Protocol.Respond(p, input.Value(), messageA, old(random.stream))
            case Err(e) => r == Err(e) && forall o: object | Store(o) && fresh(o) :: Cleared(o)
            case Ok(s) =>
              && r.Ok? && OpenResponder(r.value.0, s.core) && r.value.1[..] == s.messageB
              && forall o: object | Store(o) && fresh(o) ::
                   o in ResponderArrays(r.value.0.state.core.value) + {r.value.1} || Cleared(o) || Left(o, p, s.view)
    ensures r.Ok? ==> fresh(r.value.0.state) && fresh(ResponderObjects(r.value.0.state.core.value))
    ensures r.Ok? ==> fresh(ResponderArrays(r.value.0.state.core.value)) && fresh(r.value.1)
    ensures r.Ok? ==> r.value.1 !in ResponderArrays(r.value.0.state.core.value)
    ensures Protocol.InputError(input.Value()).Some? ==> forall o: object | Store(o) :: !fresh(o)
  {
    var normalized;
    ghost var ledger, scratch, spare;
    normalized, ledger := NormalizeInput(input, Protocol.Responder);
    if normalized.Err? {
      return Err(normalized.error);
    }
    r, scratch, spare := RespondNormalized(p, normalized.value, messageA, random);
    assert forall a | a in ledger.Owned() :: Wiped(a);
  }

  ghost predicate Left(o: object, p: Primitives, v: View)
    reads o
  {
    o is array<byte> && LeftOver(o as array<byte>, p, v)
  }

  /** Respond after its first step. */
  method RespondNormalized(p: Primitives, ni: NormalizedSlices, messageA: Bytes, random: RandomSource)
    returns (r: Result<(Responder, array<byte>)>, ghost scratch: set<object>, ghost spare: set<array<byte>>)
    requires p.Valid() && ni.PasswordApart()
    modifies random, ni.Owned()
    ensures match Protocol.RespondNormalized(p, old(ni.Value()), messageA, old(random.stream))
            case Err(e) => r == Err(e) && spare == {}
            case Ok(s) =>
              && r.Ok? && OpenResponder(r.value.0, s.core) && r.value.1[..] == s.messageB
              && AllLeft(spare, p, s.view)
    ensures r.Ok? ==> fresh(r.value.0.state) && fresh(ResponderObjects(r.value.0.state.core.value))
    ensures r.Ok? ==> fresh(ResponderArrays(r.value.0.state.core.value)) && fresh(r.value.1)
    ensures r.Ok? ==> r.value.1 !in ResponderArrays(r.value.0.state.core.value)
    ensures forall a | a in ni.Owned() :: Wiped(a)
    ensures fresh(spare) && fresh(scratch) && forall o | o in scratch :: Cleared(o)
    ensures forall o: object | Store(o) && fresh(o) ::
              o in scratch || o in spare || (r.Ok? && o in ResponderArrays(r.value.0.state.core.value) + {r.value.1})
  {
    var built;
    built, scratch, spare := BuildThenWipe(p, ni, messageA, random);
    if built.Err? {
      return Err(built.error), scratch, spare;
    }
    var state := new S.SingleUseState(Some(built.value.0));
    return Ok((Responder(state), built.value.1)), scratch, spare;
  }

  /** The core and message are those of the specified outcome. */
  ghost predicate Answers(p: Primitives, spec: Result<Protocol.RespondResult>, r: Result<(ResponderCore, array<byte>)>,
                          spare: set<array<byte>>)
    reads if r.Ok? then ResponderObjects(r.value.0) + ResponderArrays(r.value.0) + {r.value.1} else {}
    reads spare
  {
    match spec
    case Err(e) => r == Err(e) && spare == {}
    case Ok(s) =>
      && r.Ok? && r.value.0.Holds(s.core) && r.value.1[..] == s.messageB
      && AllLeft(spare, p, s.view)
  }

  /** Respond between its first step and the deferred wipe. */
  method BuildResponder(p: Primitives, ni: NormalizedSlices, messageA: Bytes, random: RandomSource)
    returns (r: Result<(ResponderCore, array<byte>)>, ghost scratch: set<object>, ghost spare: set<array<byte>>)
    requires p.Valid() && ni.PasswordApart()
    modifies random, ni.password
    ensures Answers(p, Protocol.RespondNormalized(p, old(ni.Value()), messageA, old(random.stream)), r, spare)
    ensures r.Ok? ==> fresh(ResponderObjects(r.value.0)) && fresh(ResponderArrays(r.value.0)) && fresh(r.value.1)
    ensures r.Ok? ==> r.value.1 !in ResponderArrays(r.value.0)
    ensures fresh(spare) && fresh(scratch) && forall o | o in scratch :: Cleared(o)
    ensures forall o: object | Store(o) && fresh(o) ::
              o in scratch || o in spare || (r.Ok? && o in ResponderArrays(r.value.0) + {r.value.1})
  {
    PackageSpecsBounded();
    var a := DecodeMessage(MESSAGE_A, messageA);
    ParsedAs(MESSAGE_A, messageA, a);
    if a.Err? {
      return Err(a.error), {}, {};
    }
    if a.value[0] != ni.sid[..] {
      return Err(ERR_MESSAGE), {}, {};
    }
    r, scratch, spare := RespondToShare(p, ni, a.value[1], a.value[2], random);
  }

  /** Respond once message A is decoded and its session id compared. */
  method RespondToShare(p: Primitives, ni: NormalizedSlices, ya: Bytes, ada: Bytes, random: RandomSource)
    returns (r: Result<(ResponderCore, array<byte>)>, ghost scratch: set<object>, ghost spare: set<array<byte>>)
    requires p.Valid() && ni.PasswordApart()
    modifies random, ni.password
    ensures match Protocol.NewResponder(p, old(ni.Value()), ya, ada, old(random.stream))
            case Err(e) => r == Err(e) && spare == {}
            case Ok(s) =>
              && r.Ok? && r.value.0.Holds(s.core) && r.value.1[..] == Encode(MESSAGE_B, [s.yb, old(ni.ad[..]), s.tagB])
              && AllLeft(spare, p, s.view)
    ensures r.Ok? ==> fresh(ResponderObjects(r.value.0)) && fresh(ResponderArrays(r.value.0)) && fresh(r.value.1)
    ensures r.Ok? ==> r.value.1 !in ResponderArrays(r.value.0)
    ensures fresh(spare) && fresh(scratch) && forall o | o in scratch :: Cleared(o)
    ensures forall o: object | Store(o) && fresh(o) ::
              o in scratch || o in spare || (r.Ok? && o in ResponderArrays(r.value.0) + {r.value.1})
  {
    var built;
    built, scratch, spare := NewResponderCore(p, ni, ya, ada, random);
    if built.Err? {
      return Err(built.error), scratch, spare;
    }
    var core, yb, tagB := built.value.0, built.value.1, built.value.2;
    var message := EncodeMessage(MESSAGE_B, [yb[..], ni.ad[..], tagB[..]]);
    assert message.data[..] == message.Contents();
    return Ok((core, message.data)), scratch, spare;
  }

  /** The deferred wipe does not reach what is returned. */
  method BuildThenWipe(p: Primitives, ni: NormalizedSlices, messageA: Bytes, random: RandomSource)
    returns (r: Result<(ResponderCore, array<byte>)>, ghost scratch: set<object>, ghost spare: set<array<byte>>)
    requires p.Valid() && ni.PasswordApart()
    modifies random, ni.Owned()
    ensures Answers(p, Protocol.RespondNormalized(p, old(ni.Value()), messageA, old(random.stream)), r, spare)
    ensures r.Ok? ==> fresh(ResponderObjects(r.value.0)) && fresh(ResponderArrays(r.value.0)) && fresh(r.value.1)
    ensures r.Ok? ==> r.value.1 !in ResponderArrays(r.value.0)
    ensures forall a | a in ni.Owned() :: Wiped(a)
    ensures fresh(spare) && fresh(scratch) && forall o | o in scratch :: Cleared(o)
    ensures forall o: object | Store(o) && fresh(o) ::
              o in scratch || o in spare || (r.Ok? && o in ResponderArrays(r.value.0) + {r.value.1})
  {
    ghost var spec := Protocol.RespondNormalized(p, ni.Value(), messageA, random.stream);
    r, scratch, spare := BuildResponder(p, ni, messageA, random);
    assert r.Ok? ==> forall a | a in ni.Owned() :: a !in ResponderArrays(r.value.0) && a != r.value.1;
    WipeAfterRespond(ni, r, spare, p, spec);
  }

  method WipeAfterRespond(ni: NormalizedSlices, ghost r: Result<(ResponderCore, array<byte>)>, ghost spare: set<array<byte>>,
                          p: Primitives, ghost spec: Result<Protocol.RespondResult>)
    requires spare !! ni.Owned() && Answers(p, spec, r, spare)
    requires r.Ok? ==> forall a | a in ni.Owned() :: a !in ResponderArrays(r.value.0) && a != r.value.1
    modifies ni.Owned()
    ensures forall a | a in ni.Owned() :: Wiped(a)
    ensures r.Ok? ==> ResponderArrays(r.value.0) == old(ResponderArrays(r.value.0))
    ensures Answers(p, spec, r, spare)
    ensures r.Ok? ==> r.value.1[..] == old(r.value.1[..])
    ensures forall o: object | Store(o) :: !fresh(o)
  {
    ni.Wipe();
  }

  // ----- the initiator's terminal calls -----

  ghost function InitiatorFootprint(i: Option<Initiator>): set<object>
    reads if i.Some? && i.value.state != null && i.value.state.core.Some? then {i.value.state.core.value} else {}
  {
    if i.None? || i.value.state == null then {}
    else if i.value.state.core.None? then {i.value.state}
    else
      var core := i.value.state.core.value;
      {i.value.state, core} + if core.scalar == null then {} else {core.scalar}
  }

  /** Consumes the state whatever happens: after a claim that is won, the scalar
      is zeroed and gone on every path, yet the session returned holds the key
      of its own transcript in arrays of its own. The shared secret and every
      other copy of the key are overwritten. */
  method FinishInitiator(p: Primitives, i: Option<Initiator>, ghost v: Protocol.InitiatorCore, messageB: Bytes)
    returns (r: Result<(array<byte>, Session)>)
    requires p.Valid()
    requires i.Some? && i.value.state != null && i.value.state.core.Some? && !i.value.state.used ==> OpenInitiator(i.value, v)
    modifies InitiatorFootprint(i)
    ensures i.None? || i.value.state == null ==> r == Err(ERR_INVALID_INPUT)
    ensures i.Some? && i.value.state != null ==>
              var st := i.value.state;
              && st.Value() == S.Claimed(old(st.Value()), S.Finish).0
              && match S.Claimed(old(st.Value()), S.Finish).1
                 case Refused(e) => r == Err(e) && (st.core.Some? ==> ScalarUntouched(st.core.value))
                 case Lost => false
                 case Won =>
                   && st.core.value.scalar == null && old(st.core.value.scalar).v == 0
                   && match Protocol.InitiatorFinish(p, v, messageB)
                      case Err(e) => r == Err(e)
                      case Ok(c) => r.Ok? && r.value.0[..] == Encode(MESSAGE_C, [c.tag]) && r.value.1.Holds(c.session)
    ensures r.Ok? ==> fresh(r.value.0) && fresh(r.value.1) && fresh(r.value.1.state) && fresh(r.value.1.Owned())
    ensures forall o: object | Store(o) && fresh(o) ::
              || (r.Ok? && o in {r.value.0} + r.value.1.Owned())
              || Cleared(o)
              || exists w :: Protocol.FinishView(p, v, messageB) == Some(w) && Left(o, p, w)
  {
    if i.None? || i.value.state == null {
      return Err(ERR_INVALID_INPUT);
    }
    var claim := i.value.state.ClaimFinish();
    if claim.Err? {
      return Err(claim.error);
    }
    ghost var scratch, spare;
    r, scratch, spare := CompleteInitiator(p, claim.value, v, messageB);
    claim.value.Clear();
  }

  /** Finish between the claim and the deferred clear. */
  method CompleteInitiator(p: Primitives, core: InitiatorCore, ghost v: Protocol.InitiatorCore, messageB: Bytes)
    returns (r: Result<(array<byte>, Session)>, ghost scratch: set<array<byte>>, ghost spare: set<array<byte>>)
    requires p.Valid() && core.Holds(v)
    ensures match Protocol.InitiatorFinish(p, v, messageB)
            case Err(e) => r == Err(e)
            case Ok(c) => r.Ok? && r.value.0[..] == Encode(MESSAGE_C, [c.tag]) && r.value.1.Holds(c.session)
    ensures r.Ok? ==> fresh(r.value.0) && fresh(r.value.1) && fresh(r.value.1.state) && fresh(r.value.1.Owned())
    ensures fresh(scratch) && fresh(spare) && forall a | a in scratch :: Wiped(a)
    ensures match Protocol.FinishView(p, v, messageB)
            case None => spare == {}
            case Some(w) => AllLeft(spare, p, w)
    ensures forall o: object | Store(o) && fresh(o) ::
              o in scratch + spare || (r.Ok? && o in {r.value.0} + r.value.1.Owned())
  {
    PackageSpecsBounded();
    var b := DecodeMessage(MESSAGE_B, messageB);
    ParsedAs(MESSAGE_B, messageB, b);
    if b.Err? {
      return Err(b.error), {}, {};
    }
    var confirmed;
    confirmed, scratch, spare := core.Finish(p, v, b.value[0], b.value[1], b.value[2]);
    if confirmed.Err? {
      return Err(confirmed.error), scratch, spare;
    }
    var message := EncodeMessage(MESSAGE_C, [confirmed.value.0[..]]);
    assert message.data[..] == message.Contents();
    return Ok((message.data, confirmed.value.1)), scratch, spare + {confirmed.value.0};
  }

  twostate predicate ScalarUntouched(c: InitiatorCore)
    reads c, c.scalar
  {
    && c.scalar == old(c.scalar)
    && (c.scalar != null ==> c.scalar.v == old(c.scalar.v))
  }

  method CloseInitiator(i: Option<Initiator>) returns (r: Result<()>)
    modifies InitiatorFootprint(i)
    ensures i.None? ==> r == Ok(())
    ensures i.Some? && i.value.state == null ==> r == Err(ERR_INVALID_INPUT)
    ensures i.Some? && i.value.state != null ==>
              var st := i.value.state;
              && st.Value() == S.Claimed(old(st.Value()), S.Close).0
              && match S.Claimed(old(st.Value()), S.Close).1
                 case Refused(e) => r == Err(e)
                 case Lost => r == Ok(()) && (st.core.Some? ==> ScalarUntouched(st.core.value))
                 case Won => r == Ok(()) && st.core.value.scalar == null
                             && (old(st.core.value.scalar) != null ==> old(st.core.value.scalar).v == 0)
  {
    if i.None? {
      return Ok(());
    }
    if i.value.state == null {
      return Err(ERR_INVALID_INPUT);
    }
    var claim := i.value.state.ClaimClose();
    if claim.Err? {
      return Err(claim.error);
    }
    if claim.value.Some? {
      claim.value.value.Clear();
    }
    return Ok(());
  }

  /** A Finish through one copy of an initiator spends every other copy. */
  method FinishSpendsCopies(p: Primitives, i: Initiator, copy: Initiator, ghost v: Protocol.InitiatorCore, first: Bytes, second: Bytes)
    returns (again: Result<(array<byte>, Session)>, closed: Result<()>)
    requires p.Valid() && OpenInitiator(i, v) && copy == i
    modifies InitiatorFootprint(Some(i))
    ensures again == Err(ERR_STATE_USED) && closed == Ok(())
    ensures i.state.core.value.scalar == null && old(i.state.core.value.scalar).v == 0
  {
    var _ := FinishInitiator(p, Some(i), v, first);
    again := FinishInitiator(p, Some(copy), v, second);
    closed := CloseInitiator(Some(copy));
  }

  // ----- the responder's terminal calls -----

  ghost function ResponderFootprint(i: Option<Responder>): set<object>
    reads if i.Some? && i.value.state != null && i.value.state.core.Some? then ResponderObjects(i.value.state.core.value) else {}
  {
    if i.None? || i.value.state == null then {}
    else if i.value.state.core.None? then {i.value.state}
    else
      var core := i.value.state.core.value;
      {i.value.state} + ResponderObjects(core) + SecretArrays(core)
  }

  method FinishResponder(p: Primitives, i: Option<Responder>, ghost v: Protocol.ResponderCore, messageC: Bytes)
    returns (r: Result<Session>)
    requires i.Some? && i.value.state != null && i.value.state.core.Some? && !i.value.state.used ==> OpenResponder(i.value, v)
    modifies ResponderFootprint(i)
    ensures i.None? || i.value.state == null ==> r == Err(ERR_INVALID_INPUT)
    ensures i.Some? && i.value.state != null ==>
              var st := i.value.state;
              && st.Value() == S.Claimed(old(st.Value()), S.Finish).0
              && match S.Claimed(old(st.Value()), S.Finish).1
                 case Refused(e) => r == Err(e) && (st.core.Some? ==> CoreUntouched(st.core.value))
                 case Lost => false
                 case Won =>
                   && SecretArrays(st.core.value) == {}
                   && (forall a | a in old(SecretArrays(st.core.value)) :: Wiped(a))
                   && match Protocol.ResponderFinish(p, v, messageC)
                      case Err(e) => r == Err(e)
                      case Ok(s) => r.Ok? && r.value.Holds(s)
    ensures r.Ok? ==> fresh(r.value) && fresh(r.value.state) && fresh(r.value.Owned())
    ensures forall o: object | Store(o) && fresh(o) :: (r.Ok? && o in r.value.Owned()) || Cleared(o) || TagLeft(o, p, v)
  {
    if i.None? || i.value.state == null {
      return Err(ERR_INVALID_INPUT);
    }
    var claim := i.value.state.ClaimFinish();
    if claim.Err? {
      return Err(claim.error);
    }
    r := FinishThenClear(p, claim.value, v, messageC);
  }

  /** Finish once the claim is won. */
  method FinishThenClear(p: Primitives, core: ResponderCore, ghost v: Protocol.ResponderCore, messageC: Bytes)
    returns (r: Result<Session>)
    requires core.Holds(v)
    modifies core, core.isk, core.transcript, core.transcript.Owned()
    ensures match Protocol.ResponderFinish(p, v, messageC)
            case Err(e) => r == Err(e)
            case Ok(s) => r.Ok? && r.value.Holds(s)
    ensures SecretArrays(core) == {}
    ensures forall a | a in old(SecretArrays(core)) :: Wiped(a)
    ensures r.Ok? ==> fresh(r.value) && fresh(r.value.state) && fresh(r.value.Owned())
    ensures forall o: object | Store(o) && fresh(o) :: (r.Ok? && o in r.value.Owned()) || Cleared(o) || TagLeft(o, p, v)
  {
    ghost var scratch, spare;
    r, scratch, spare := CompleteResponder(p, core, v, messageC);
    ClearAfterFinish(core, r);
  }

  /** The deferred clear does not reach the session. */
  method ClearAfterFinish(core: ResponderCore, ghost r: Result<Session>)
    requires r.Ok? ==> r.value.Owned() !! SecretArrays(core)
    modifies core, core.isk, core.transcript, core.transcript.Owned()
    ensures SecretArrays(core) == {}
    ensures forall a | a in old(SecretArrays(core)) :: Wiped(a)
    ensures r.Ok? ==> forall s :: old(r.value.Holds(s)) ==> r.value.Holds(s)
    ensures r.Ok? ==> r.value.Owned() == old(r.value.Owned())
    ensures forall o: object | Store(o) :: !fresh(o)
  {
    core.Clear();
  }

  /** Finish between the claim and the deferred clear. */
  method CompleteResponder(p: Primitives, core: ResponderCore, ghost v: Protocol.ResponderCore, messageC: Bytes)
    returns (r: Result<Session>, ghost scratch: set<array<byte>>, ghost spare: set<array<byte>>)
    requires core.Holds(v)
    ensures match Protocol.ResponderFinish(p, v, messageC)
            case Err(e) => r == Err(e)
            case Ok(s) => r.Ok? && r.value.Holds(s)
    ensures r.Ok? ==> fresh(r.value) && fresh(r.value.state) && fresh(r.value.Owned())
    ensures fresh(scratch) && forall a | a in scratch :: Wiped(a)
    ensures fresh(spare) && forall a | a in spare :: TagLeftOver(a, p, v)
    ensures forall o: object | Store(o) && fresh(o) :: o in scratch + spare || (r.Ok? && o in r.value.Owned())
  {
    PackageSpecsBounded();
    var c := DecodeMessage(MESSAGE_C, messageC);
    ParsedAs(MESSAGE_C, messageC, c);
    if c.Err? {
      return Err(c.error), {}, {};
    }
    r, scratch, spare := core.Finish(p, v, c.value[0]);
  }

  ghost predicate TagLeft(o: object, p: Primitives, v: Protocol.ResponderCore)
    reads o
  {
    o is array<byte> && TagLeftOver(o as array<byte>, p, v)
  }

  /** Neither the secrets nor who owns them changed. */
  twostate predicate CoreUntouched(c: ResponderCore)
    reads c, c.transcript, SecretArrays(c)
  {
    && unchanged(c) && unchanged(c.transcript)
    && forall a | a in old(SecretArrays(c)) :: unchanged(a)
  }

  method CloseResponder(i: Option<Responder>) returns (r: Result<()>)
    modifies ResponderFootprint(i)
    ensures i.None? ==> r == Ok(())
    ensures i.Some? && i.value.state == null ==> r == Err(ERR_INVALID_INPUT)
    ensures i.Some? && i.value.state != null ==>
              var st := i.value.state;
              && st.Value() == S.Claimed(old(st.Value()), S.Close).0
              && match S.Claimed(old(st.Value()), S.Close).1
                 case Refused(e) => r == Err(e)
                 case Lost => r == Ok(()) && (st.core.Some? ==> CoreUntouched(st.core.value))
                 case Won => r == Ok(()) && SecretArrays(st.core.value) == {}
                             && (forall a | a in old(SecretArrays(st.core.value)) :: Wiped(a))
  {
    if i.None? {
      return Ok(());
    }
    if i.value.state == null {
      return Err(ERR_INVALID_INPUT);
    }
    var claim := i.value.state.ClaimClose();
    if claim.Err? {
      return Err(claim.error);
    }
    if claim.value.Some? {
      claim.value.value.Clear();
    }
    return Ok(());
  }
}
