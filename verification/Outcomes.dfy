// What the calls of both parties return, for every input, in the primitives and
// the bytes they are applied to. Source: input.go, core.go, api.go.
module Outcomes {
  import opened ByteStrings
  import opened Errors
  import opened Framing
  import opened HashInputs
  import opened LengthValue
  import opened Protocol
  import opened Sampling
  import opened Suite
  import PeerShare

  // ----- inputs -----

  /** Exactly which inputs are accepted, and which error the others get. */
  lemma AcceptedInputs(input: Input)
    ensures InputError(input) == None <==>
              && 1 <= |input.password| <= 4096 && 1 <= |input.selfID| <= 4096 && 1 <= |input.peerID| <= 4096
              && |input.context| <= 1024 && |input.sessionID| <= 1024 && |input.localAD| <= 65536
              && (input.sessionID != [] || input.allowEmptySessionID)
    ensures InputError(input) == Some(Error([InvalidInput, EmptySessionID], None)) <==>
              && input.password != [] && input.selfID != [] && input.peerID != []
              && input.sessionID == [] && !input.allowEmptySessionID
    ensures InputError(input) in {None, Some(Error([InvalidInput], None)), Some(Error([InvalidInput, EmptySessionID], None))}
  {
  }

  /** The generator of a password, the two identities in the order initiator,
      responder, a context and a session id. */
  lemma GeneratorExactly(p: Primitives, input: Input, role: Role)
    ensures var ni := Normalize(input, role);
            var (i, r) := if role.Initiator? then (input.selfID, input.peerID) else (input.peerID, input.selfID);
            var ci := LvCat([Ascii("CPace-Go-CI"), Ascii("draft-irtf-cfrg-cpace-21"), Ascii("CPACE-RISTR255-SHA512"),
                             Ascii("initiator"), i, Ascii("responder"), r, Ascii("context"), input.context]);
            var room := 128 - 18 - |Leb(|input.password|)| - |input.password| - 1;
            p.Generator(ni.password, ni.ci, ni.sid) ==
            p.fromUniform(p.sha512(LvCat([Ascii("CPaceRistretto255"), input.password, Zeros(if room > 0 then room else 0),
                                          ci, input.sessionID])))
  {
    assert |LV(DSI)| == 18;
  }

  // ----- Start and Respond -----

  lemma StartExactly(p: Primitives, input: Input, random: Bytes)
    ensures var g := p.Generator(input.password, Normalize(input, Initiator).ci, input.sessionID);
            Start(p, input, random) ==
              if InputError(input).Some? then Err(InputError(input).value)
              else if Sampled(random).None? then Err(Error([Randomness], None))
              else
                var x := Sampled(random).value.scalar;
                var ya := p.encode(p.mul(x, g));
                Ok(StartResult(InitiatorCore(x, input.sessionID, ya, input.localAD, input.peerID),
                               [0xc1, 0x01, 0x01] + LvCat([input.sessionID, ya, input.localAD])))
  {
  }

  /** Respond refuses, in this order: its own input, a message A that is none or
      is for another session id, a bad share, a randomness source that ends. */
  lemma RespondRefuses(p: Primitives, input: Input, messageA: Bytes, random: Bytes)
    requires p.Valid()
    ensures InputError(input).Some? ==> Respond(p, input, messageA, random) == Err(InputError(input).value)
    ensures InputError(input).None?
            && (forall ya, ada | |ya| == 32 && |ada| <= 65536 :: messageA != [0xc1, 0x01, 0x01] + LvCat([input.sessionID, ya, ada]))
            ==> Respond(p, input, messageA, random) == Err(Error([Message], None))
  {
    if InputError(input).None? && Parse(MESSAGE_A, messageA).Some? {
      var a := Parse(MESSAGE_A, messageA).value;
      assert a == [a[0], a[1], a[2]];
      MessageAExactly(messageA, a[0], a[1], a[2]);
    }
  }

  lemma RespondExactly(p: Primitives, input: Input, ya: Bytes, ada: Bytes, random: Bytes)
    requires p.Valid() && InputError(input).None? && |ya| == 32 && |ada| <= 65536
    ensures var g := p.Generator(input.password, Normalize(input, Responder).ci, input.sessionID);
            var answer := Respond(p, input, [0xc1, 0x01, 0x01] + LvCat([input.sessionID, ya, ada]), random);
            if ya == Zeros(32) then answer == Err(Error([Abort, PeerShareIdentity], Some(InitiatorShare)))
            else if p.decode(ya).None? then answer == Err(Error([Abort, PeerShareEncoding], Some(InitiatorShare)))
            else if Sampled(random).None? then answer == Err(Error([Randomness], None))
            else
              var y := Sampled(random).value.scalar;
              var yb := p.encode(p.mul(y, g));
              var v := View(input.sessionID, p.encode(p.mul(y, p.decode(ya).value)), ya, ada, yb, input.localAD);
              answer == Ok(RespondResult(ResponderCore(v.Isk(p), input.sessionID, ya, ada, yb, input.localAD, input.peerID),
                                         v, y, [0xc1, 0x01, 0x02] + LvCat([yb, input.localAD, v.ResponderTag(p)])))
  {
    MessageAExactly([0xc1, 0x01, 0x01] + LvCat([input.sessionID, ya, ada]), input.sessionID, ya, ada);
    PeerShare.ShareClassification(InitiatorShare, p, ya);
    if p.decode(ya).Some? {
      assert p.encode(p.decode(ya).value) == ya;
    }
    assert p.decode(p.encode(0)) == Some(0);
    RespondNeverNeutral(p, Normalize(input, Responder), ya, ada, random);
  }

  // ----- the two Finish calls -----

  lemma InitiatorRefuses(p: Primitives, core: InitiatorCore, messageB: Bytes)
    ensures (forall yb, adb, tag | |yb| == 32 && |adb| <= 65536 && |tag| == 64 ::
               messageB != [0xc1, 0x01, 0x02] + LvCat([yb, adb, tag]))
            ==> InitiatorFinish(p, core, messageB) == Err(Error([Message], None))
  {
    if Parse(MESSAGE_B, messageB).Some? {
      var b := Parse(MESSAGE_B, messageB).value;
      assert b == [b[0], b[1], b[2]];
      MessageBExactly(messageB, b[0], b[1], b[2]);
    }
  }

  lemma InitiatorFinishExactly(p: Primitives, core: InitiatorCore, yb: Bytes, adb: Bytes, tag: Bytes)
    requires p.Valid() && 0 < core.scalar < p.order && |yb| == 32 && |adb| <= 65536 && |tag| == 64
    ensures var answer := InitiatorFinish(p, core, [0xc1, 0x01, 0x02] + LvCat([yb, adb, tag]));
            if yb == Zeros(32) then answer == Err(Error([Abort, PeerShareIdentity], Some(ResponderShare)))
            else if p.decode(yb).None? then answer == Err(Error([Abort, PeerShareEncoding], Some(ResponderShare)))
            else
              var v := View(core.sid, p.encode(p.mul(core.scalar, p.decode(yb).value)), core.ya, core.ada, yb, adb);
              if tag == v.ResponderTag(p) != v.InitiatorTag(p) then
                answer == Ok(Confirmed(v, v.InitiatorTag(p), Session(v.Isk(p), v.TranscriptID(p), adb, core.peerID)))
              else answer == Err(Error([ConfirmationFailed], None))
  {
    MessageBExactly([0xc1, 0x01, 0x02] + LvCat([yb, adb, tag]), yb, adb, tag);
    PeerShare.ShareClassification(ResponderShare, p, yb);
    PeerShare.DecodeOnceRefines(ResponderShare, p, core.scalar, yb);
    assert p.decode(p.encode(0)) == Some(0);
    if p.decode(yb).Some? {
      assert p.encode(p.decode(yb).value) == yb;
      if yb != Zeros(32) {
        PeerShare.SharedSecretNeverNeutral(ResponderShare, p, core.scalar, p.decode(yb).value);
      }
    }
  }

  /** For the core of a responder with view v: any message but the one carrying
      the initiator's tag is refused, and that one too if the tags are equal. */
  lemma ResponderFinishExactly(p: Primitives, v: View, peerID: Bytes, messageC: Bytes)
    ensures var core := ResponderCore(v.Isk(p), v.sid, v.ya, v.ada, v.yb, v.adb, peerID);
            ResponderFinish(p, core, messageC) ==
              if forall tag | |tag| == 64 :: messageC != [0xc1, 0x01, 0x03] + LvCat([tag]) then Err(Error([Message], None))
              else if messageC == [0xc1, 0x01, 0x03] + LvCat([v.InitiatorTag(p)]) && v.InitiatorTag(p) != v.ResponderTag(p) then
                Ok(Session(v.Isk(p), v.TranscriptID(p), v.ada, peerID))
              else Err(Error([ConfirmationFailed], None))
  {
    MessageCExactly(messageC, v.InitiatorTag(p));
    if tag :| |tag| == 64 && messageC == [0xc1, 0x01, 0x03] + LvCat([tag]) {
      MessageCExactly(messageC, tag);
    } else if Parse(MESSAGE_C, messageC).Some? {
      var c := Parse(MESSAGE_C, messageC).value;
      assert c == [c[0]];
      MessageCExactly(messageC, c[0]);
    }
  }

  /** Export is HKDF of the session key over the label and the two inputs. */
  lemma ExportExactly(p: Primitives, s: Session, purpose: Bytes, context: Bytes, n: nat)
    ensures s.Export(p, purpose, context, n) == p.hkdf(s.isk, LvCat([Ascii("CPaceExport"), purpose, context]), n)
  {
  }
}
