// Any number of instances of both roles, with a network that delivers
// arbitrary bytes in any order.
module Runs {
  import opened ByteStrings
  import opened Errors
  import opened Framing
  import opened HashInputs
  import opened LengthValue
  import opened Protocol
  import opened Sampling
  import opened Suite
  import HonestExchange
  import PeerShare

  /** A single-use instance: open, accepted on some peer tag, or spent by a
      failed Finish or a Close. */
  datatype Status<T> = Open | Accepted(peerTag: Bytes, result: T) | Spent

  datatype Party =
    | InitiatorParty(input: Input, initiator: InitiatorCore, finished: Status<Confirmed>)
    | ResponderParty(input: Input, responder: ResponderCore, view: View, scalar: nat, closed: Status<Session>)
  {
    predicate HasAccepted()
    {
      match this
      case InitiatorParty(_, _, st) => st.Accepted?
      case ResponderParty(_, _, _, _, st) => st.Accepted?
    }

    function AcceptedTag(): Bytes
      requires HasAccepted()
    {
      if InitiatorParty? then finished.peerTag else closed.peerTag
    }

    function ItsSession(): Session
      requires HasAccepted()
    {
      if InitiatorParty? then finished.result.session else closed.result
    }

    /** The tag this instance has put on the wire, if any: a responder's goes
        out with message B, an initiator's only with message C. */
    function Released(p: Primitives): Option<Bytes>
    {
      match this
      case InitiatorParty(_, _, st) => if st.Accepted? then Some(st.result.tag) else None
      case ResponderParty(_, _, v, _, _) => Some(v.ResponderTag(p))
    }

    function ItsView(p: Primitives): View
      requires Released(p).Some?
    {
      if InitiatorParty? then finished.result.view else view
    }

    function ItsRole(): Role { if InitiatorParty? then Initiator else Responder }
  }

  datatype Event =
    | StartCall(input: Input, random: Bytes)
    | RespondCall(input: Input, messageA: Bytes, random: Bytes)
    | FinishCall(party: nat, message: Bytes)
    | CloseCall(party: nat)

  ghost function FinishParty(p: Primitives, q: Party, message: Bytes): Party
  {
    match q
    case InitiatorParty(_, core, Open) =>
      var r := InitiatorFinish(p, core, message);
      q.(finished := if r.Ok? then Accepted(Parse(MESSAGE_B, message).value[2], r.value) else Spent)
    case ResponderParty(_, core, _, _, Open) =>
      var r := ResponderFinish(p, core, message);
      q.(closed := if r.Ok? then Accepted(Parse(MESSAGE_C, message).value[0], r.value) else Spent)
    case _ => q
  }

  function CloseParty(q: Party): Party
  {
    match q
    case InitiatorParty(_, _, Open) => q.(finished := Spent)
    case ResponderParty(_, _, _, _, Open) => q.(closed := Spent)
    case _ => q
  }

  ghost function Step(p: Primitives, w: seq<Party>, e: Event): seq<Party>
  {
    match e
    case StartCall(input, random) =>
      (match Start(p, input, random)
       case Err(_) => w
       case Ok(s) => w + [InitiatorParty(input, s.core, Open)])
    case RespondCall(input, messageA, random) =>
      (match Respond(p, input, messageA, random)
       case Err(_) => w
       case Ok(r) => w + [ResponderParty(input, r.core, r.view, r.scalar, Open)])
    case FinishCall(i, message) => if i < |w| then w[i := FinishParty(p, w[i], message)] else w
    case CloseCall(i) => if i < |w| then w[i := CloseParty(w[i])] else w
  }

  ghost function Run(p: Primitives, events: seq<Event>): seq<Party>
  {
    if events == [] then [] else Step(p, Run(p, events[..|events| - 1]), events[|events| - 1])
  }

  // ----- what one event does -----

  lemma RunExtended(p: Primitives, events: seq<Event>, e: Event)
    ensures Run(p, events + [e]) == Step(p, Run(p, events), e)
  {
    assert (events + [e])[..|events|] == events;
  }

  /** Start and Respond add one open instance when they succeed. */
  lemma OpeningStep(p: Primitives, w: seq<Party>, input: Input, message: Bytes, random: Bytes)
    ensures Start(p, input, random).Err? ==> Step(p, w, StartCall(input, random)) == w
    ensures Start(p, input, random).Ok? ==>
              Step(p, w, StartCall(input, random)) == w + [InitiatorParty(input, Start(p, input, random).value.core, Open)]
    ensures Respond(p, input, message, random).Err? ==> Step(p, w, RespondCall(input, message, random)) == w
    ensures Respond(p, input, message, random).Ok? ==>
              var r := Respond(p, input, message, random).value;
              Step(p, w, RespondCall(input, message, random)) == w + [ResponderParty(input, r.core, r.view, r.scalar, Open)]
  {
  }

  /** A Finish on an open instance ends accepted, on the tag in its message and
      with the result of the call, if and only if the call succeeds; else the
      instance ends spent. No other instance moves. */
  lemma FinishStep(p: Primitives, w: seq<Party>, i: nat, message: Bytes)
    ensures var w' := Step(p, w, FinishCall(i, message));
            && |w'| == |w| && (forall j | 0 <= j < |w| && j != i :: w'[j] == w[j])
            && (i < |w| ==>
                  match w[i]
                  case InitiatorParty(input, core, Open) =>
                    (match InitiatorFinish(p, core, message)
                     case Ok(c) => exists tag :: w'[i] == InitiatorParty(input, core, Accepted(tag, c))
                                                 && message == Encode(MESSAGE_B, [c.view.yb, c.view.adb, tag])
                     case Err(_) => w'[i] == InitiatorParty(input, core, Spent))
                  case ResponderParty(input, core, v, y, Open) =>
                    (match ResponderFinish(p, core, message)
                     case Ok(s) => exists tag :: w'[i] == ResponderParty(input, core, v, y, Accepted(tag, s))
                                                 && message == Encode(MESSAGE_C, [tag])
                     case Err(_) => w'[i] == ResponderParty(input, core, v, y, Spent))
                  case _ => w'[i] == w[i])
  {
    if i < |w| {
      match w[i] {
        case InitiatorParty(input, core, Open) =>
          if InitiatorFinish(p, core, message).Ok? {
            var b := Parse(MESSAGE_B, message).value;
            assert b == [b[0], b[1], b[2]];
            assert message == Encode(MESSAGE_B, [b[0], b[1], b[2]]);
          }
        case ResponderParty(input, core, v, y, Open) =>
          if ResponderFinish(p, core, message).Ok? {
            var c := Parse(MESSAGE_C, message).value;
            assert c == [c[0]];
            assert message == Encode(MESSAGE_C, [c[0]]);
          }
        case _ =>
      }
    }
  }

  /** A Close leaves its instance spent if it was open and as it was if not. */
  lemma CloseStep(p: Primitives, w: seq<Party>, i: nat)
    ensures var w' := Step(p, w, CloseCall(i));
            && |w'| == |w| && (forall j | 0 <= j < |w| && j != i :: w'[j] == w[j])
            && (i < |w| ==>
                  match w[i]
                  case InitiatorParty(input, core, Open) => w'[i] == InitiatorParty(input, core, Spent)
                  case ResponderParty(input, core, v, y, Open) => w'[i] == ResponderParty(input, core, v, y, Spent)
                  case _ => w'[i] == w[i])
  {
  }

  // ----- what every instance keeps -----

  function OwnGenerator(p: Primitives, q: Party): nat
  {
    var ni := Normalize(q.input, q.ItsRole());
    p.Generator(ni.password, ni.ci, ni.sid)
  }

  ghost predicate InitiatorSound(p: Primitives, q: Party)
    requires q.InitiatorParty?
  {
    var core := q.initiator;
    && 0 < core.scalar < p.order
    && core.ya == p.encode(p.mul(core.scalar, OwnGenerator(p, q)))
    && core.sid == q.input.sessionID && core.ada == q.input.localAD && core.peerID == q.input.peerID
    && (q.HasAccepted() ==>
          var (c, v) := (q.finished.result, q.finished.result.view);
          && p.decode(v.yb).Some? && p.decode(v.yb).value != 0
          && v == InitiatorView(core, p.encode(p.mul(core.scalar, p.decode(v.yb).value)), v.yb, v.adb)
          && q.finished.peerTag == v.ResponderTag(p)
          && c.tag == v.InitiatorTag(p) != q.finished.peerTag
          && c.session == Session(v.Isk(p), v.TranscriptID(p), v.adb, core.peerID))
  }

  ghost predicate ResponderSound(p: Primitives, q: Party)
    requires q.ResponderParty?
  {
    var (core, v) := (q.responder, q.view);
    && 0 < q.scalar < p.order
    && p.decode(v.ya).Some? && p.decode(v.ya).value != 0
    && v == View(q.input.sessionID, p.encode(p.mul(q.scalar, p.decode(v.ya).value)), v.ya, v.ada,
                 p.encode(p.mul(q.scalar, OwnGenerator(p, q))), q.input.localAD)
    && core == ResponderCore(v.Isk(p), v.sid, v.ya, v.ada, v.yb, v.adb, q.input.peerID)
    && (q.HasAccepted() ==>
          && q.closed.peerTag == v.InitiatorTag(p) != v.ResponderTag(p)
          && q.closed.result == Session(v.Isk(p), v.TranscriptID(p), v.ada, core.peerID))
  }

  ghost predicate Sound(p: Primitives, q: Party)
  {
    if q.InitiatorParty? then InitiatorSound(p, q) else ResponderSound(p, q)
  }

  lemma StartSound(p: Primitives, input: Input, random: Bytes)
    requires p.Valid() && Start(p, input, random).Ok?
    ensures Sound(p, InitiatorParty(input, Start(p, input, random).value.core, Open))
  {
  }

  lemma RespondSound(p: Primitives, input: Input, messageA: Bytes, random: Bytes)
    requires p.Valid() && Respond(p, input, messageA, random).Ok?
    ensures var r := Respond(p, input, messageA, random).value;
            Sound(p, ResponderParty(input, r.core, r.view, r.scalar, Open))
  {
    var a := Parse(MESSAGE_A, messageA).value;
    PeerShare.ShareClassification(InitiatorShare, p, a[1]);
  }

  lemma FinishSound(p: Primitives, q: Party, message: Bytes)
    requires p.Valid() && Sound(p, q)
    ensures Sound(p, FinishParty(p, q, message))
  {
    match q {
      case InitiatorParty(_, core, Open) =>
        if InitiatorFinish(p, core, message).Ok? {
          var b := Parse(MESSAGE_B, message).value;
          PeerShare.DecodeOnceRefines(ResponderShare, p, core.scalar, b[0]);
          PeerShare.ShareClassification(ResponderShare, p, b[0]);
        }
      case ResponderParty(_, core, v, _, Open) =>
        assert StoredTag(p, core, core.ya, core.ada) == v.InitiatorTag(p);
        assert StoredTag(p, core, core.yb, core.adb) == v.ResponderTag(p);
      case _ =>
    }
  }

  /** Every instance of every reachable world is sound. */
  lemma {:induction false} RunSound(p: Primitives, events: seq<Event>)
    requires p.Valid()
    ensures forall i | 0 <= i < |Run(p, events)| :: Sound(p, Run(p, events)[i])
  {
    if events != [] {
      var before, e := events[..|events| - 1], events[|events| - 1];
      RunSound(p, before);
      var w := Run(p, before);
      match e {
        case StartCall(input, random) =>
          if Start(p, input, random).Ok? {
            StartSound(p, input, random);
          }
        case RespondCall(input, messageA, random) =>
          if Respond(p, input, messageA, random).Ok? {
            RespondSound(p, input, messageA, random);
          }
        case FinishCall(i, message) =>
          if i < |w| {
            FinishSound(p, w[i], message);
          }
        case CloseCall(i) =>
      }
    }
  }

  // ----- agreement -----

  /** The parties believe in one exchange, in opposite roles, configured alike. */
  ghost predicate Partners(p: Primitives, a: Party, b: Party)
    requires a.Released(p).Some? && b.Released(p).Some?
  {
    && a.ItsRole() != b.ItsRole()
    && a.ItsView(p) == b.ItsView(p)
    && a.input.password == b.input.password
    && a.input.context == b.input.context
    && a.input.sessionID == b.input.sessionID
    && a.input.selfID == b.input.peerID && a.input.peerID == b.input.selfID
  }

  /** The share and data the peer of `a` authenticated with the tag that `a`
      accepted, and those that `b` authenticated with its own. */
  function AgreementClash(p: Primitives, a: Party, b: Party): Clash
    requires a.HasAccepted() && b.Released(p).Some?
  {
    var (v, w) := (a.ItsView(p), b.ItsView(p));
    var (y, ad) := if a.InitiatorParty? then (v.yb, v.adb) else (v.ya, v.ada);
    var (y', ad') := if b.InitiatorParty? then (w.ya, w.ada) else (w.yb, w.adb);
    var tags := TagClash(p, v, y, ad, w, y', ad');
    if tags.Breaks(p) then tags else GeneratorClash(GeneratorInput(a), GeneratorInput(b))
  }

  function GeneratorInput(q: Party): Bytes
  {
    var ni := Normalize(q.input, q.ItsRole());
    GeneratorString(DSI, ni.password, ni.ci, ni.sid, BLOCK_SIZE)
  }

  /** Equal views come from equal configurations: both sides multiplied into
      the same secret the shares that they themselves generated. */
  lemma SameViewSameConfiguration(p: Primitives, a: Party, b: Party)
    requires p.Valid() && Sound(p, a) && Sound(p, b)
    requires a.InitiatorParty? && b.ResponderParty? && a.HasAccepted()
    requires a.ItsView(p) == b.ItsView(p)
    ensures Partners(p, a, b) || GeneratorClash(GeneratorInput(a), GeneratorInput(b)).Breaks(p)
  {
    var x, y := a.initiator.scalar, b.scalar;
    var ga, gb := OwnGenerator(p, a), OwnGenerator(p, b);
    var (ea, eb) := (p.mul(x, ga), p.mul(y, gb));
    assert p.decode(p.encode(ea)) == Some(ea) && p.decode(p.encode(eb)) == Some(eb);
    var (ka, kb) := (p.mul(x, eb), p.mul(y, ea));
    assert p.decode(p.encode(ka)) == Some(ka) && p.decode(p.encode(kb)) == Some(kb);
    assert ka == kb;
    MulCommutes(p, x, y, gb);
    MulInjective(p, y, p.mul(x, gb), p.mul(x, ga));
    MulInjective(p, x, gb, ga);
    if GeneratorInput(a) == GeneratorInput(b) {
      SameInputSameConfiguration(a, b);
    }
  }

  lemma SameInputSameConfiguration(a: Party, b: Party)
    requires a.InitiatorParty? && b.ResponderParty? && GeneratorInput(a) == GeneratorInput(b)
    ensures a.input.password == b.input.password && a.input.sessionID == b.input.sessionID
    ensures a.input.context == b.input.context
    ensures a.input.selfID == b.input.peerID && a.input.peerID == b.input.selfID
  {
    var m, n := Normalize(a.input, Initiator), Normalize(b.input, Responder);
    GeneratorStringInjective(DSI, m.password, m.ci, m.sid, BLOCK_SIZE, DSI, n.password, n.ci, n.sid, BLOCK_SIZE);
    ChannelIdentifierInjective(m.initiatorID, m.responderID, a.input.context, n.initiatorID, n.responderID, b.input.context);
  }

  /** No instance accepts a tag released in its own role. */
  lemma NoSameRoleTag(p: Primitives, a: Party, b: Party)
    requires p.Valid() && Sound(p, a) && Sound(p, b)
    requires a.HasAccepted() && b.Released(p) == Some(a.AcceptedTag())
    ensures (a.ItsRole() != b.ItsRole() && a.ItsView(p) == b.ItsView(p)) || AgreementClash(p, a, b).Breaks(p)
  {
    var (v, w) := (a.ItsView(p), b.ItsView(p));
    var (y, ad) := if a.InitiatorParty? then (v.yb, v.adb) else (v.ya, v.ada);
    var (y', ad') := if b.InitiatorParty? then (w.ya, w.ada) else (w.yb, w.adb);
    EqualTags(p, v, y, ad, w, y', ad');
  }

  /** Key-confirmation agreement. In every run, if an instance accepted a tag
      and some instance of the run released that tag, the two are partners; a
      responder's partner has itself accepted, on this responder's tag. Else
      the computed clash breaks a primitive. */
  lemma Agreement(p: Primitives, events: seq<Event>, a: Party, b: Party)
    requires p.Valid() && a in Run(p, events) && b in Run(p, events)
    requires a.HasAccepted() && b.Released(p) == Some(a.AcceptedTag())
    ensures (Partners(p, a, b) && (a.ResponderParty? ==> b.HasAccepted() && a.Released(p) == Some(b.AcceptedTag())))
            || AgreementClash(p, a, b).Breaks(p)
  {
    RunSound(p, events);
    NoSameRoleTag(p, a, b);
    if !AgreementClash(p, a, b).Breaks(p) {
      if a.InitiatorParty? {
        SameViewSameConfiguration(p, a, b);
      } else {
        SameViewSameConfiguration(p, b, a);
      }
    }
  }

  function ScalarOf(q: Party): nat { if q.InitiatorParty? then q.initiator.scalar else q.scalar }

  lemma SameShareSameScalar(p: Primitives, x: nat, y: nat, g: nat)
    requires p.Laws() && x < p.order && y < p.order && g < p.order
    requires p.encode(p.mul(x, g)) == p.encode(p.mul(y, g)) && p.mul(x, g) != 0
    ensures x == y
  {
    assert p.decode(p.encode(p.mul(x, g))) == Some(p.mul(x, g));
    assert p.decode(p.encode(p.mul(y, g))) == Some(p.mul(y, g));
    MulSwap(p, x, g);
    MulSwap(p, y, g);
    MulSwap(p, x, 0);
    MulInjective(p, g, x, y);
  }

  /** Agreement is one to one: instances that accepted the same instance's tag
      drew the same scalar. */
  lemma AgreementOneToOne(p: Primitives, events: seq<Event>, a: Party, a': Party, b: Party)
    requires p.Valid() && a in Run(p, events) && a' in Run(p, events) && b in Run(p, events)
    requires a.HasAccepted() && b.Released(p) == Some(a.AcceptedTag())
    requires a'.HasAccepted() && b.Released(p) == Some(a'.AcceptedTag())
    ensures ScalarOf(a) == ScalarOf(a') || AgreementClash(p, a, b).Breaks(p) || AgreementClash(p, a', b).Breaks(p)
  {
    Agreement(p, events, a, b);
    Agreement(p, events, a', b);
    RunSound(p, events);
    if Partners(p, a, b) && Partners(p, a', b) {
      var g := OwnGenerator(p, a);
      assert OwnGenerator(p, a') == g;
      assert p.decode(p.encode(p.mul(ScalarOf(a), g))) == Some(p.mul(ScalarOf(a), g));
      SameShareSameScalar(p, ScalarOf(a), ScalarOf(a'), g);
    }
  }

  /** Partners that have both accepted hold interchangeable sessions. */
  lemma PartnersShareSession(p: Primitives, events: seq<Event>, a: Party, b: Party)
    requires p.Valid() && a in Run(p, events) && b in Run(p, events)
    requires a.HasAccepted() && b.HasAccepted() && Partners(p, a, b)
    ensures var (s, t) := (a.ItsSession(), b.ItsSession());
            && s.isk == t.isk && s.transcriptID == t.transcriptID
            && (forall l, c, n :: s.Export(p, l, c, n) == t.Export(p, l, c, n))
            && s.peerID == b.input.selfID && t.peerID == a.input.selfID
            && s.peerAD == b.input.localAD && t.peerAD == a.input.localAD
  {
    RunSound(p, events);
  }

  /** A transcript id stands for one transcript: sessions that share it were
      derived over the same shares and data, or the hash clashes. */
  lemma TranscriptIDsDiffer(p: Primitives, events: seq<Event>, a: Party, b: Party)
    requires p.Valid() && a in Run(p, events) && b in Run(p, events)
    requires a.HasAccepted() && b.HasAccepted() && a.ItsSession().transcriptID == b.ItsSession().transcriptID
    ensures var (v, w) := (a.ItsView(p), b.ItsView(p));
            (v.ya == w.ya && v.ada == w.ada && v.yb == w.yb && v.adb == w.adb)
            || HashClash(Ascii("CPaceSidOutput") + LvCat([v.ya, v.ada, v.yb, v.adb]),
                         Ascii("CPaceSidOutput") + LvCat([w.ya, w.ada, w.yb, w.adb])).Breaks(p)
  {
    RunSound(p, events);
    var (v, w) := (a.ItsView(p), b.ItsView(p));
    KeySchedule(p, v);
    KeySchedule(p, w);
    SidOutputDetermines(v.ya, v.ada, v.yb, v.adb, w.ya, w.ada, w.yb, w.adb);
    SidOutputDetermines(w.ya, w.ada, w.yb, w.adb, v.ya, v.ada, v.yb, v.adb);
  }

  // ----- faithful delivery -----

  /** Two parties, every message delivered as sent; the initiator's tag is the
      one of the responder's view. */
  ghost function FaithfulEvents(p: Primitives, a: Input, ra: Bytes, b: Input, rb: Bytes): seq<Event>
    requires Start(p, a, ra).Ok? && Respond(p, b, Start(p, a, ra).value.messageA, rb).Ok?
  {
    var s := Start(p, a, ra).value;
    var r := Respond(p, b, s.messageA, rb).value;
    [StartCall(a, ra), RespondCall(b, s.messageA, rb), FinishCall(0, r.messageB),
     FinishCall(1, Encode(MESSAGE_C, [r.view.InitiatorTag(p)]))]
  }

  /** Completeness. If the inputs match, the run of a faithfully delivered
      exchange ends with both instances accepted on each other's tag, over one
      view, with sessions of its key and transcript; if they do not, the
      initiator does not accept. Or the computed clash breaks a primitive. */
  lemma FaithfulRun(p: Primitives, a: Input, ra: Bytes, b: Input, rb: Bytes)
    requires p.Valid() && Start(p, a, ra).Ok? && Respond(p, b, Start(p, a, ra).value.messageA, rb).Ok?
    requires p.Generator(b.password, Normalize(b, Responder).ci, b.sessionID) != 0
    ensures var w := Run(p, FaithfulEvents(p, a, ra, b, rb));
            var (s, r) := (Start(p, a, ra).value, Respond(p, b, Start(p, a, ra).value.messageA, rb).value);
            var v := r.view;
            || HonestExchange.Exchange(p, a, ra, b, rb).SuspectClash().Breaks(p)
            || (if a.password == b.password && a.context == b.context && a.selfID == b.peerID && a.peerID == b.selfID
                   && (v.ya, a.localAD) != (v.yb, b.localAD)
                then w == [InitiatorParty(a, s.core, Accepted(v.ResponderTag(p),
                             Confirmed(v, v.InitiatorTag(p), Session(v.Isk(p), v.TranscriptID(p), b.localAD, a.peerID)))),
                           ResponderParty(b, r.core, v, r.scalar, Accepted(v.InitiatorTag(p),
                             Session(v.Isk(p), v.TranscriptID(p), a.localAD, b.peerID)))]
                     && w[0].HasAccepted() && w[1].HasAccepted()
                     && w[0].Released(p) == Some(w[1].AcceptedTag()) && w[1].Released(p) == Some(w[0].AcceptedTag())
                else |w| == 2 && w[0] == InitiatorParty(a, s.core, Spent))
  {
    var x := HonestExchange.Exchange(p, a, ra, b, rb);
    var _ := HonestExchange.Shares(x);
    HonestExchange.InitiatorConfirmsExactly(x);
    if !x.SuspectClash().Breaks(p) {
      if x.Matches() {
        MatchingRun(x);
      } else {
        FaithfulEnds(p, a, ra, b, rb);
        var r := x.Responded();
        var w := [InitiatorParty(a, x.Started().core, Open), ResponderParty(b, r.core, r.view, r.scalar, Open)];
        FinishStep(p, w, 0, r.messageB);
        FinishStep(p, Step(p, w, FinishCall(0, r.messageB)), 1, Encode(MESSAGE_C, [r.view.InitiatorTag(p)]));
      }
    }
  }

  lemma MatchingRun(x: HonestExchange.Exchange)
    requires x.Begun() && x.Matches() && !x.SuspectClash().Breaks(x.p)
    ensures var (p, r, v) := (x.p, x.Responded(), x.Responded().view);
            Run(p, FaithfulEvents(p, x.initiator, x.randomI, x.responder, x.randomR)) ==
              [InitiatorParty(x.initiator, x.Started().core, Accepted(v.ResponderTag(p),
                 Confirmed(v, v.InitiatorTag(p), Session(v.Isk(p), v.TranscriptID(p), x.responder.localAD, x.initiator.peerID)))),
               ResponderParty(x.responder, r.core, v, r.scalar, Accepted(v.InitiatorTag(p),
                 Session(v.Isk(p), v.TranscriptID(p), x.initiator.localAD, x.responder.peerID)))]
  {
    var p, r, v := x.p, x.Responded(), x.Responded().view;
    FaithfulEnds(p, x.initiator, x.randomI, x.responder, x.randomR);
    HonestExchange.MatchingFinishes(x);
    var w := [InitiatorParty(x.initiator, x.Started().core, Open), ResponderParty(x.responder, r.core, v, r.scalar, Open)];
    AcceptsB(p, w, r.messageB, x.InitiatorOutcome().value, v.ResponderTag(p));
    AcceptsC(p, Step(p, w, FinishCall(0, r.messageB)), v.InitiatorTag(p));
  }

  lemma AcceptsB(p: Primitives, w: seq<Party>, messageB: Bytes, c: Confirmed, tag: Bytes)
    requires |w| == 2 && w[0].InitiatorParty? && w[0].finished.Open?
    requires InitiatorFinish(p, w[0].initiator, messageB) == Ok(c) && messageB == Encode(MESSAGE_B, [c.view.yb, c.view.adb, tag])
    ensures Step(p, w, FinishCall(0, messageB)) == [InitiatorParty(w[0].input, w[0].initiator, Accepted(tag, c)), w[1]]
  {
    FinishStep(p, w, 0, messageB);
    var sent, got := [c.view.yb, c.view.adb, tag], [c.view.yb, c.view.adb, Step(p, w, FinishCall(0, messageB))[0].finished.peerTag];
    EncodeInjective(MESSAGE_B, sent, MESSAGE_B, got);
    assert sent[2] == got[2];
  }

  lemma AcceptsC(p: Primitives, w: seq<Party>, tag: Bytes)
    requires |w| == 2 && w[1].ResponderParty? && w[1].closed.Open?
    requires ResponderFinish(p, w[1].responder, Encode(MESSAGE_C, [tag])).Ok?
    ensures var (q, m) := (w[1], Encode(MESSAGE_C, [tag]));
            Step(p, w, FinishCall(1, m)) ==
              [w[0], ResponderParty(q.input, q.responder, q.view, q.scalar, Accepted(tag, ResponderFinish(p, q.responder, m).value))]
  {
    var m := Encode(MESSAGE_C, [tag]);
    FinishStep(p, w, 1, m);
    var got := Step(p, w, FinishCall(1, m))[1].closed.peerTag;
    EncodeInjective(MESSAGE_C, [tag], MESSAGE_C, [got]);
    assert [tag][0] == [got][0];
  }

  lemma FaithfulEnds(p: Primitives, a: Input, ra: Bytes, b: Input, rb: Bytes)
    requires Start(p, a, ra).Ok? && Respond(p, b, Start(p, a, ra).value.messageA, rb).Ok?
    ensures var events := FaithfulEvents(p, a, ra, b, rb);
            var r := Respond(p, b, Start(p, a, ra).value.messageA, rb).value;
            Run(p, events) ==
              Step(p, Step(p, [InitiatorParty(a, Start(p, a, ra).value.core, Open),
                               ResponderParty(b, r.core, r.view, r.scalar, Open)], events[2]), events[3])
  {
    var events := FaithfulEvents(p, a, ra, b, rb);
    BothOpened(p, a, ra, b, rb);
    var opening := [events[0], events[1]];
    assert opening + [events[2]] == events[..3] && events[..3] + [events[3]] == events;
    RunExtended(p, opening, events[2]);
    RunExtended(p, events[..3], events[3]);
  }

  lemma BothOpened(p: Primitives, a: Input, ra: Bytes, b: Input, rb: Bytes)
    requires Start(p, a, ra).Ok? && Respond(p, b, Start(p, a, ra).value.messageA, rb).Ok?
    ensures var r := Respond(p, b, Start(p, a, ra).value.messageA, rb).value;
            Run(p, [StartCall(a, ra), RespondCall(b, Start(p, a, ra).value.messageA, rb)]) ==
              [InitiatorParty(a, Start(p, a, ra).value.core, Open), ResponderParty(b, r.core, r.view, r.scalar, Open)]
  {
    var first, second := StartCall(a, ra), RespondCall(b, Start(p, a, ra).value.messageA, rb);
    assert [] + [first] == [first] && [first] + [second] == [first, second];
    RunExtended(p, [], first);
    RunExtended(p, [first], second);
  }

  // ----- reflection -----

  /** What the peer would call with, had it the same associated data. */
  function Mirrored(input: Input): Input { input.(selfID := input.peerID, peerID := input.selfID) }

  function MirrorRun(p: Primitives, input: Input, random: Bytes): seq<Event>
    requires Start(p, input, random).Ok?
  {
    [StartCall(input, random), RespondCall(Mirrored(input), Start(p, input, random).value.messageA, random)]
  }

  /** The equal-tag test is needed: whatever input a party starts with, a world
      is reachable in which nobody has released a tag but the responder, the
      responder awaits the very tag it sent, and only that test refuses it. */
  lemma ReflectionReachable(p: Primitives, input: Input, random: Bytes)
    requires p.Valid() && Start(p, input, random).Ok?
    requires OwnGenerator(p, InitiatorParty(input, Start(p, input, random).value.core, Open)) != 0
    ensures var w := Run(p, MirrorRun(p, input, random));
            && |w| == 2 && w[0].Released(p) == None && w[1].ResponderParty? && w[1].closed.Open?
            && var (v, c) := (w[1].view, w[1].responder);
            && v.ya == v.yb && v.ada == v.adb
            && StoredTag(p, c, c.ya, c.ada) == v.ResponderTag(p)
            && ResponderFinish(p, c, Encode(MESSAGE_C, [v.ResponderTag(p)])) == Err(ERR_CONFIRMATION_FAILED)
  {
    var s, peer := Start(p, input, random).value, Mirrored(input);
    HonestExchange.BeginsExactly(p, input, random, peer, random);
    MessageAUnderstood(p, input, random);
    var r := Respond(p, peer, s.messageA, random).value;
    BothOpened(p, input, random, peer, random);
    assert Normalize(peer, Responder) == Normalize(input, Initiator);
    MessageCUnderstood(r.view.ResponderTag(p));
  }

  // ----- single use -----

  predicate Settled(q: Party)
  {
    match q
    case InitiatorParty(_, _, st) => !st.Open?
    case ResponderParty(_, _, _, _, st) => !st.Open?
  }

  /** No instance disappears or changes its inputs, and one that has accepted
      or been spent stays as it is. */
  predicate Carries(w: seq<Party>, later: seq<Party>)
  {
    && |w| <= |later|
    && (forall i | 0 <= i < |w| :: later[i].input == w[i].input && (Settled(w[i]) ==> later[i] == w[i]))
  }

  lemma StepSettled(p: Primitives, w: seq<Party>, e: Event)
    ensures Carries(w, Step(p, w, e))
  {
  }

  /** Whatever follows, the world carries over. */
  lemma {:induction false} SettledForever(p: Primitives, events: seq<Event>, later: seq<Event>)
    ensures Carries(Run(p, events), Run(p, events + later))
    decreases later
  {
    if later == [] {
      assert events + later == events;
    } else {
      var k := |later| - 1;
      var before := events + later[..k];
      SettledForever(p, events, later[..k]);
      assert events + later == before + [later[k]];
      RunExtended(p, before, later[k]);
      StepSettled(p, Run(p, before), later[k]);
    }
  }
}
