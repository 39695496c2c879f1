// What one party computes, on values: accepting inputs, Start, Respond and the
// two Finish calls. Source: input.go, core.go, api.go.
module Protocol {
  import opened ByteStrings
  import opened Errors
  import opened Framing
  import opened HashInputs
  import opened Sampling
  import opened Suite
  import PeerShare

  const MAX_PASSWORD := 4096
  const MAX_ID := 4096
  const MAX_CONTEXT := 1024

  datatype Input = Input(
    password: Bytes, selfID: Bytes, peerID: Bytes, context: Bytes, sessionID: Bytes, localAD: Bytes,
    allowEmptySessionID: bool)

  datatype Role = Initiator | Responder

  /** Inputs mapped to protocol roles. */
  datatype Normalized = Normalized(
    password: Bytes, initiatorID: Bytes, responderID: Bytes, ci: Bytes, sid: Bytes, ad: Bytes)

  function InputError(input: Input): Option<Error>
  {
    if |input.password| == 0 || |input.selfID| == 0 || |input.peerID| == 0 then
      Some(ERR_INVALID_INPUT)
    else if |input.sessionID| == 0 && !input.allowEmptySessionID then
      Some(Error([InvalidInput, EmptySessionID], None))
    else if |input.password| > MAX_PASSWORD || |input.selfID| > MAX_ID || |input.peerID| > MAX_ID
            || |input.context| > MAX_CONTEXT || |input.sessionID| > MAX_SESSION_ID
            || |input.localAD| > MAX_ASSOCIATED_DATA then
      Some(ERR_INVALID_INPUT)
    else
      None
  }

  function InitiatorID(input: Input, role: Role): Bytes { if role.Initiator? then input.selfID else input.peerID }

  function ResponderID(input: Input, role: Role): Bytes { if role.Initiator? then input.peerID else input.selfID }

  function Normalize(input: Input, role: Role): Normalized
  {
    var (i, r) := (InitiatorID(input, role), ResponderID(input, role));
    Normalized(input.password, i, r, ChannelIdentifier(i, r, input.context), input.sessionID, input.localAD)
  }

  datatype InitiatorCore = InitiatorCore(scalar: nat, sid: Bytes, ya: Bytes, ada: Bytes, peerID: Bytes)

  datatype ResponderCore = ResponderCore(
    isk: Bytes, sid: Bytes, ya: Bytes, ada: Bytes, yb: Bytes, adb: Bytes, peerID: Bytes)

  datatype Session = Session(isk: Bytes, transcriptID: Bytes, peerAD: Bytes, peerID: Bytes)
  {
    function Export(p: Primitives, purpose: Bytes, context: Bytes, n: nat): Bytes
    {
      p.hkdf(isk, ExportInfo(purpose, context), n)
    }
  }

  // ----- initiator, first step -----

  datatype Started = Started(core: InitiatorCore, ya: Bytes)

  function NewInitiator(p: Primitives, ni: Normalized, random: Bytes): Result<Started>
  {
    match Sampled(random)
    case None => Err(ERR_RANDOMNESS)
    case Some(y) =>
      var ya := p.encode(p.mul(y.scalar, p.Generator(ni.password, ni.ci, ni.sid)));
      Ok(Started(InitiatorCore(y.scalar, ni.sid, ya, ni.ad, ni.responderID), ya))
  }

  datatype StartResult = StartResult(core: InitiatorCore, messageA: Bytes)

  function Start(p: Primitives, input: Input, random: Bytes): Result<StartResult>
  {
    match InputError(input)
    case Some(e) => Err(e)
    case None =>
      StartNormalized(p, Normalize(input, Initiator), random)
  }

  function StartNormalized(p: Primitives, ni: Normalized, random: Bytes): Result<StartResult>
  {
    match NewInitiator(p, ni, random)
    case Err(e) => Err(e)
    case Ok(s) => Ok(StartResult(s.core, Encode(MESSAGE_A, [ni.sid, s.ya, ni.ad])))
  }

  // ----- responder, first step -----

  /** Besides what the responder keeps and sends: its view and its scalar, which
      the program discards. */
  datatype Responded = Responded(core: ResponderCore, view: View, scalar: nat, yb: Bytes, tagB: Bytes)

  function NewResponder(p: Primitives, ni: Normalized, ya: Bytes, ada: Bytes, random: Bytes): Result<Responded>
  {
    match PeerShare.Decode(InitiatorShare, p, ya)
    case Err(e) => Err(e)
    case Ok(element) =>
      match Sampled(random)
      case None => Err(ERR_RANDOMNESS)
      case Some(y) => RespondWith(p, ni, ya, ada, element, y.scalar)
  }

  /** The responder's computation once the share is decoded and y is drawn. */
  function RespondWith(p: Primitives, ni: Normalized, ya: Bytes, ada: Bytes, element: nat, y: nat): Result<Responded>
  {
    var yb := p.encode(p.mul(y, p.Generator(ni.password, ni.ci, ni.sid)));
    match PeerShare.SharedSecretElement(InitiatorShare, p, y, element)
    case Err(e) => Err(e)
    case Ok(k) =>
      var v := View(ni.sid, k, ya, ada, yb, ni.ad);
      Ok(Responded(ResponderCore(v.Isk(p), ni.sid, ya, ada, yb, ni.ad, ni.initiatorID),
                   v, y, yb, v.ResponderTag(p)))
  }

  /** The responder's constructor fails on the share or on the randomness, and
      on nothing after those. */
  lemma RespondNeverNeutral(p: Primitives, ni: Normalized, ya: Bytes, ada: Bytes, random: Bytes)
    ensures p.Valid() ==> (NewResponder(p, ni, ya, ada, random).Err? <==>
              PeerShare.Decode(InitiatorShare, p, ya).Err? || Sampled(random).None?)
  {
    if p.Valid() && PeerShare.Decode(InitiatorShare, p, ya).Ok? && Sampled(random).Some? {
      PeerShare.ShareClassification(InitiatorShare, p, ya);
      PeerShare.SharedSecretNeverNeutral(InitiatorShare, p, Sampled(random).value.scalar,
                                         PeerShare.Decode(InitiatorShare, p, ya).value);
    }
  }

  datatype RespondResult = RespondResult(core: ResponderCore, view: View, scalar: nat, messageB: Bytes)

  ghost function Respond(p: Primitives, input: Input, messageA: Bytes, random: Bytes): Result<RespondResult>
  {
    match InputError(input)
    case Some(e) => Err(e)
    case None =>
      RespondNormalized(p, Normalize(input, Responder), messageA, random)
  }

  ghost function RespondNormalized(p: Primitives, ni: Normalized, messageA: Bytes, random: Bytes): Result<RespondResult>
  {
    match Parse(MESSAGE_A, messageA)
    case None => Err(ERR_MESSAGE)
    case Some(a) =>
      if a[0] != ni.sid then Err(ERR_MESSAGE)
      else
        match NewResponder(p, ni, a[1], a[2], random)
        case Err(e) => Err(e)
        case Ok(r) => Ok(RespondResult(r.core, r.view, r.scalar, Encode(MESSAGE_B, [r.yb, ni.ad, r.tagB])))
  }

  // ----- initiator, last step -----

  datatype Confirmed = Confirmed(view: View, tag: Bytes, session: Session)

  /** The view an initiator forms from a responder's share and data. */
  function InitiatorView(core: InitiatorCore, k: Bytes, yb: Bytes, adb: Bytes): View
  {
    View(core.sid, k, core.ya, core.ada, yb, adb)
  }

  function InitiatorFinishCore(p: Primitives, core: InitiatorCore, yb: Bytes, adb: Bytes, tag: Bytes): Result<Confirmed>
  {
    match PeerShare.SharedSecret(ResponderShare, p, core.scalar, yb)
    case Err(e) => Err(e)
    case Ok(k) =>
      var v := InitiatorView(core, k, yb, adb);
      if v.ResponderTag(p) != tag || v.InitiatorTag(p) == tag then Err(ERR_CONFIRMATION_FAILED)
      else Ok(Confirmed(v, v.InitiatorTag(p), Session(v.Isk(p), v.TranscriptID(p), adb, core.peerID)))
  }

  ghost function InitiatorFinish(p: Primitives, core: InitiatorCore, messageB: Bytes): Result<Confirmed>
  {
    match Parse(MESSAGE_B, messageB)
    case None => Err(ERR_MESSAGE)
    case Some(b) => InitiatorFinishCore(p, core, b[0], b[1], b[2])
  }

  /** The view that Finish forms, once message B parses and its share is good. */
  ghost function FinishView(p: Primitives, core: InitiatorCore, messageB: Bytes): Option<View>
  {
    match Parse(MESSAGE_B, messageB)
    case None => None
    case Some(b) =>
      match PeerShare.SharedSecret(ResponderShare, p, core.scalar, b[0])
      case Err(_) => None
      case Ok(k) => Some(InitiatorView(core, k, b[0], b[1]))
  }

  // ----- responder, last step -----

  function StoredTag(p: Primitives, core: ResponderCore, y: Bytes, ad: Bytes): Bytes
  {
    ConfirmationTag(p, core.isk, core.sid, y, ad)
  }

  function ResponderFinishCore(p: Primitives, core: ResponderCore, tag: Bytes): Result<Session>
  {
    if StoredTag(p, core, core.ya, core.ada) != tag || StoredTag(p, core, core.yb, core.adb) == tag then
      Err(ERR_CONFIRMATION_FAILED)
    else
      var transcript := TranscriptBytes(core.ya, core.ada, core.yb, core.adb);
      Ok(Session(core.isk, p.sha512(SidOutputInput(transcript)), core.ada, core.peerID))
  }

  ghost function ResponderFinish(p: Primitives, core: ResponderCore, messageC: Bytes): Result<Session>
  {
    match Parse(MESSAGE_C, messageC)
    case None => Err(ERR_MESSAGE)
    case Some(c) => ResponderFinishCore(p, core, c[0])
  }

  // ----- what is sent is understood -----

  /** Message A of any accepted input is parsed back to the fields put in. */
  lemma MessageAUnderstood(p: Primitives, input: Input, random: Bytes)
    requires p.Laws() && Start(p, input, random).Ok?
    ensures var s := Start(p, input, random).value;
            Parse(MESSAGE_A, s.messageA) == Some([s.core.sid, s.core.ya, s.core.ada])
  {
    var s := Start(p, input, random).value;
    assert Fits(MESSAGE_A.fields, [s.core.sid, s.core.ya, s.core.ada]);
    ParseEncode(MESSAGE_A, [s.core.sid, s.core.ya, s.core.ada]);
  }

  lemma MessageBUnderstood(p: Primitives, input: Input, messageA: Bytes, random: Bytes)
    requires p.Laws() && Respond(p, input, messageA, random).Ok?
    ensures var r := Respond(p, input, messageA, random).value;
            Parse(MESSAGE_B, r.messageB) == Some([r.core.yb, r.core.adb, r.view.ResponderTag(p)])
  {
    var r := Respond(p, input, messageA, random).value;
    assert Fits(MESSAGE_B.fields, [r.core.yb, r.core.adb, r.view.ResponderTag(p)]);
    ParseEncode(MESSAGE_B, [r.core.yb, r.core.adb, r.view.ResponderTag(p)]);
  }

  lemma MessageCUnderstood(tag: Digest)
    ensures Parse(MESSAGE_C, Encode(MESSAGE_C, [tag])) == Some([tag])
  {
    assert Fits(MESSAGE_C.fields, [tag]);
    ParseEncode(MESSAGE_C, [tag]);
  }
}
