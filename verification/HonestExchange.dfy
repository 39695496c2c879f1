// Both parties run the protocol and every message is delivered unchanged.
module HonestExchange {
  import opened ByteStrings
  import opened Errors
  import opened Framing
  import opened HashInputs
  import opened Protocol
  import opened Sampling
  import opened Suite
  import PeerShare

  /** Two inputs with their randomness, such that Start and Respond succeed on
      faithfully delivered bytes and neither generator is the identity. */
  datatype Exchange = Exchange(p: Primitives, initiator: Input, randomI: Bytes, responder: Input, randomR: Bytes)
  {
    ghost predicate Begun()
    {
      && p.Valid()
      && Start(p, initiator, randomI).Ok?
      && Respond(p, responder, Started().messageA, randomR).Ok?
      && GeneratorOf(responder, Responder) != 0
    }

    function GeneratorInput(input: Input, role: Role): Bytes
    {
      var ni := Normalize(input, role);
      GeneratorString(DSI, ni.password, ni.ci, ni.sid, BLOCK_SIZE)
    }

    function GeneratorOf(input: Input, role: Role): nat
    {
      p.fromUniform(p.sha512(GeneratorInput(input, role)))
    }

    function Started(): StartResult
      requires Start(p, initiator, randomI).Ok?
    {
      Start(p, initiator, randomI).value
    }

    ghost function Responded(): RespondResult
      requires Begun()
    {
      Respond(p, responder, Started().messageA, randomR).value
    }

    ghost function InitiatorOutcome(): Result<Confirmed>
      requires Begun()
    {
      InitiatorFinish(p, Started().core, Responded().messageB)
    }

    ghost function ResponderOutcome(): Result<Session>
      requires Begun() && InitiatorOutcome().Ok?
    {
      ResponderFinish(p, Responded().core, Encode(MESSAGE_C, [InitiatorOutcome().value.tag]))
    }

    /** Password and context agree, the identities are crossed, and the parties
        did not send the same share with the same associated data. */
    ghost predicate Matches()
      requires Begun()
    {
      && initiator.password == responder.password
      && initiator.context == responder.context
      && initiator.selfID == responder.peerID
      && initiator.peerID == responder.selfID
      && (Started().core.ya, initiator.localAD) != (Responded().core.yb, responder.localAD)
    }

    ghost function ViewI(): View
      requires Begun()
    {
      var r := Responded();
      InitiatorView(Started().core, p.encode(p.mul(Started().core.scalar, p.decode(r.core.yb).value)), r.core.yb, r.core.adb)
    }

    /** The one place to look when the outcome is not the expected one. */
    ghost function SuspectClash(): Clash
      requires Begun()
    {
      var (vi, vr) := (ViewI(), Responded().view);
      var generators := GeneratorClash(GeneratorInput(initiator, Initiator), GeneratorInput(responder, Responder));
      var tags := TagClash(p, vi, vi.yb, vi.adb, vr, vr.yb, vr.adb);
      if generators.Breaks(p) then generators
      else if tags.Breaks(p) then tags
      else TagClash(p, vi, vi.ya, vi.ada, vi, vi.yb, vi.adb)
    }
  }

  /** After a successful Start and faithful delivery, Respond fails for a reason
      of its own input, of differing session ids, of its randomness, or because
      the initiator's generator was the identity; never otherwise. */
  lemma BeginsExactly(p: Primitives, initiator: Input, randomI: Bytes, responder: Input, randomR: Bytes)
    requires p.Valid() && Start(p, initiator, randomI).Ok?
    ensures var ni := Normalize(initiator, Initiator);
            Respond(p, responder, Start(p, initiator, randomI).value.messageA, randomR).Ok? <==>
              && InputError(responder).None?
              && responder.sessionID == initiator.sessionID
              && Sampled(randomR).Some?
              && p.Generator(ni.password, ni.ci, ni.sid) != 0
  {
    MessageAUnderstood(p, initiator, randomI);
    StartFields(p, initiator, randomI);
    var ni, s := Normalize(initiator, Initiator), Start(p, initiator, randomI).value.core;
    var g := p.Generator(ni.password, ni.ci, ni.sid);
    var e := p.mul(s.scalar, g);
    MulSwap(p, s.scalar, g);
    if g != 0 {
      MulNonzero(p, s.scalar, g);
    }
    PeerShare.ShareClassification(InitiatorShare, p, s.ya);
    assert p.decode(p.encode(e)) == Some(e);
    if e != 0 && Sampled(randomR).Some? {
      PeerShare.SharedSecretNeverNeutral(InitiatorShare, p, Sampled(randomR).value.scalar, e);
    }
  }

  lemma StartFields(p: Primitives, input: Input, random: Bytes)
    requires p.Valid() && Start(p, input, random).Ok?
    ensures var (s, ni) := (Start(p, input, random).value.core, Normalize(input, Initiator));
            && 0 < s.scalar < p.order
            && s.ya == p.encode(p.mul(s.scalar, p.Generator(ni.password, ni.ci, ni.sid)))
            && s.sid == input.sessionID && s.ada == input.localAD && s.peerID == input.peerID
  {
  }

  /** The responder multiplies the very element the initiator encoded. */
  lemma ResponderFields(p: Primitives, ni: Normalized, e: nat, ada: Bytes, random: Bytes) returns (y: nat)
    requires p.Valid() && e < p.order && NewResponder(p, ni, p.encode(e), ada, random).Ok?
    ensures 0 < y < p.order
    ensures var (r, yb) := (NewResponder(p, ni, p.encode(e), ada, random).value,
                            p.encode(p.mul(y, p.Generator(ni.password, ni.ci, ni.sid))));
            && r.view == View(ni.sid, p.encode(p.mul(y, e)), p.encode(e), ada, yb, ni.ad)
            && r.core == ResponderCore(r.view.Isk(p), ni.sid, p.encode(e), ada, yb, ni.ad, ni.initiatorID)
  {
    y := Sampled(random).value.scalar;
    assert p.decode(p.encode(e)) == Some(e);
  }

  /** What the delivered messages make the two parties hold. */
  lemma Shares(x: Exchange) returns (y: nat)
    requires x.Begun()
    ensures var (s, r, p) := (x.Started().core, x.Responded(), x.p);
            var (gi, gr) := (x.GeneratorOf(x.initiator, Initiator), x.GeneratorOf(x.responder, Responder));
            && 0 < s.scalar < p.order && 0 < y < p.order && gi < p.order && 0 < gr < p.order
            && s.ya == p.encode(p.mul(s.scalar, gi))
            && r.core.yb == p.encode(p.mul(y, gr))
            && r.view == View(s.sid, p.encode(p.mul(y, p.mul(s.scalar, gi))), s.ya, s.ada, r.core.yb, r.core.adb)
            && r.core == ResponderCore(r.view.Isk(p), s.sid, s.ya, s.ada, r.core.yb, r.core.adb, x.responder.peerID)
            && s.sid == x.initiator.sessionID == x.responder.sessionID
            && s.ada == x.initiator.localAD && r.core.adb == x.responder.localAD
            && s.peerID == x.initiator.peerID
  {
    var p, s := x.p, x.Started().core;
    MessageAUnderstood(p, x.initiator, x.randomI);
    StartFields(p, x.initiator, x.randomI);
    var e := p.mul(s.scalar, x.GeneratorOf(x.initiator, Initiator));
    y := ResponderFields(p, Normalize(x.responder, Responder), e, s.ada, x.randomR);
  }

  /** The initiator never aborts here: it either confirms or reports that
      confirmation failed, by the two tag comparisons alone. */
  lemma InitiatorCompares(x: Exchange)
    requires x.Begun()
    ensures var (vi, vr) := (x.ViewI(), x.Responded().view);
            x.InitiatorOutcome() ==
              if vi.ResponderTag(x.p) != vr.ResponderTag(x.p) || vi.InitiatorTag(x.p) == vr.ResponderTag(x.p) then
                Err(ERR_CONFIRMATION_FAILED)
              else
                Ok(Confirmed(vi, vi.InitiatorTag(x.p),
                             Session(vi.Isk(x.p), vi.TranscriptID(x.p), x.responder.localAD, x.initiator.peerID)))
  {
    var y := Shares(x);
    var p, s, r := x.p, x.Started().core, x.Responded();
    MessageBUnderstood(p, x.responder, x.Started().messageA, x.randomR);
    var g := x.GeneratorOf(x.responder, Responder);
    MulNonzero(p, y, g);
    var e := p.mul(y, g);
    PeerShare.ShareClassification(ResponderShare, p, r.core.yb);
    assert PeerShare.Decode(ResponderShare, p, r.core.yb) == Ok(e);
    assert p.decode(r.core.yb) == Some(e);
    PeerShare.DecodeOnceRefines(ResponderShare, p, s.scalar, r.core.yb);
    PeerShare.SharedSecretNeverNeutral(ResponderShare, p, s.scalar, e);
  }

  /** Same generator, same view: Diffie-Hellman agrees. */
  lemma SameGeneratorSameView(x: Exchange)
    requires x.Begun()
    ensures x.GeneratorOf(x.initiator, Initiator) == x.GeneratorOf(x.responder, Responder) <==> x.ViewI() == x.Responded().view
  {
    var y := Shares(x);
    var p, s, r := x.p, x.Started().core, x.Responded();
    var gi, gr := x.GeneratorOf(x.initiator, Initiator), x.GeneratorOf(x.responder, Responder);
    var (ki, kr) := (p.mul(s.scalar, p.mul(y, gr)), p.mul(y, p.mul(s.scalar, gi)));
    assert p.decode(r.core.yb) == Some(p.mul(y, gr));
    assert x.ViewI().k == p.encode(ki);
    MulCommutes(p, s.scalar, y, gr);
    if x.ViewI() == r.view {
      assert p.decode(p.encode(ki)) == Some(ki) && p.decode(p.encode(kr)) == Some(kr);
      MulInjective(p, y, p.mul(s.scalar, gr), p.mul(s.scalar, gi));
      MulInjective(p, s.scalar, gr, gi);
    }
  }

  /** Equal generators come from equal passwords, contexts and crossed
      identities, or from a generator clash. */
  lemma SameGeneratorSameInputs(x: Exchange)
    requires x.Begun()
    ensures x.initiator.password == x.responder.password && x.initiator.context == x.responder.context
            && x.initiator.selfID == x.responder.peerID && x.initiator.peerID == x.responder.selfID
            ==> x.GeneratorOf(x.initiator, Initiator) == x.GeneratorOf(x.responder, Responder)
    ensures x.GeneratorOf(x.initiator, Initiator) == x.GeneratorOf(x.responder, Responder) ==>
              (x.initiator.password == x.responder.password && x.initiator.context == x.responder.context
               && x.initiator.selfID == x.responder.peerID && x.initiator.peerID == x.responder.selfID)
              || GeneratorClash(x.GeneratorInput(x.initiator, Initiator), x.GeneratorInput(x.responder, Responder)).Breaks(x.p)
  {
    var y := Shares(x);
    var a, b := Normalize(x.initiator, Initiator), Normalize(x.responder, Responder);
    if x.GeneratorInput(x.initiator, Initiator) == x.GeneratorInput(x.responder, Responder) {
      GeneratorStringInjective(DSI, a.password, a.ci, a.sid, BLOCK_SIZE, DSI, b.password, b.ci, b.sid, BLOCK_SIZE);
      ChannelIdentifierInjective(a.initiatorID, a.responderID, x.initiator.context,
                                 b.initiatorID, b.responderID, x.responder.context);
    }
  }

  /** The initiator confirms exactly the matching exchanges, up to the suspect
      clash, and otherwise returns ErrConfirmationFailed. */
  lemma InitiatorConfirmsExactly(x: Exchange)
    requires x.Begun()
    ensures (x.InitiatorOutcome().Ok? <==> x.Matches()) || x.SuspectClash().Breaks(x.p)
    ensures x.InitiatorOutcome().Err? ==> x.InitiatorOutcome().error == ERR_CONFIRMATION_FAILED
  {
    InitiatorCompares(x);
    SameGeneratorSameView(x);
    SameGeneratorSameInputs(x);
    var y := Shares(x);
    var vi, vr := x.ViewI(), x.Responded().view;
    if vi.ResponderTag(x.p) == vr.ResponderTag(x.p) {
      EqualTags(x.p, vi, vi.yb, vi.adb, vr, vr.yb, vr.adb);
    }
    ReflectionTestExact(x.p, vi);
  }

  /** Without a clash a matching exchange has one view, and both calls return
      what that view determines. */
  lemma MatchingFinishes(x: Exchange)
    requires x.Begun() && x.Matches() && !x.SuspectClash().Breaks(x.p)
    ensures var (p, v, r) := (x.p, x.Responded().view, x.Responded());
            && x.InitiatorOutcome() ==
                 Ok(Confirmed(v, v.InitiatorTag(p), Session(v.Isk(p), v.TranscriptID(p), x.responder.localAD, x.initiator.peerID)))
            && ResponderFinish(p, r.core, Encode(MESSAGE_C, [v.InitiatorTag(p)])) ==
                 Ok(Session(v.Isk(p), v.TranscriptID(p), x.initiator.localAD, x.responder.peerID))
            && r.messageB == Encode(MESSAGE_B, [v.yb, v.adb, v.ResponderTag(p)])
  {
    InitiatorConfirmsExactly(x);
    InitiatorCompares(x);
    SameGeneratorSameView(x);
    SameGeneratorSameInputs(x);
    var y := Shares(x);
    assert x.ViewI() == x.Responded().view;
    MessageBUnderstood(x.p, x.responder, x.Started().messageA, x.randomR);
    MessageCUnderstood(x.ViewI().InitiatorTag(x.p));
  }

  /** The exact outcome: both Finish calls succeed if and only if the exchange
      matches, and then the two sessions agree on key, transcript and every
      export, and each names the other party and carries its data. */
  lemma HonestOutcome(x: Exchange)
    requires x.Begun()
    ensures x.SuspectClash().Breaks(x.p)
            || (x.Matches() <==> x.InitiatorOutcome().Ok? && x.ResponderOutcome().Ok?)
    ensures x.SuspectClash().Breaks(x.p) || !x.Matches() ||
            (var (i, r) := (x.InitiatorOutcome().value.session, x.ResponderOutcome().value);
             && i.isk == r.isk && i.transcriptID == r.transcriptID
             && (forall l, c, n :: i.Export(x.p, l, c, n) == r.Export(x.p, l, c, n))
             && i.peerID == x.responder.selfID && r.peerID == x.initiator.selfID
             && i.peerAD == x.responder.localAD && r.peerAD == x.initiator.localAD)
  {
    InitiatorConfirmsExactly(x);
    if x.InitiatorOutcome().Ok? && !x.SuspectClash().Breaks(x.p) {
      InitiatorCompares(x);
      SameGeneratorSameView(x);
      SameGeneratorSameInputs(x);
      var y := Shares(x);
      assert x.ViewI() == x.Responded().view;
      MessageCUnderstood(x.ViewI().InitiatorTag(x.p));
    }
  }
}
