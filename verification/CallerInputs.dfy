// Ownership of the caller's input: copied on acceptance, mapped to roles,
// overwritten when done. Source: input.go. A nil slice is an empty array here.
module CallerInputs {
  import opened ByteStrings
  import opened Errors
  import opened Framing
  import opened HashInputs
  import opened LengthValue
  import opened Protocol

  ghost function Arrays(a: array?<byte>): set<array<byte>>
  {
    if a == null then {} else {a}
  }

  /** The caller's slices; they may alias one another. */
  datatype InputSlices = InputSlices(
    password: array<byte>, selfID: array<byte>, peerID: array<byte>, context: array<byte>,
    sessionID: array<byte>, localAD: array<byte>, allowEmptySessionID: bool)
  {
    ghost function Value(): Input
      reads password, selfID, peerID, context, sessionID, localAD
    {
      Input(password[..], selfID[..], peerID[..], context[..], sessionID[..], localAD[..], allowEmptySessionID)
    }

    ghost function All(): set<array<byte>> { {password, selfID, peerID, context, sessionID, localAD} }
  }

  method CloneThree(a: array<byte>, b: array<byte>, c: array<byte>)
    returns (a': array<byte>, b': array<byte>, c': array<byte>)
    ensures fresh(a') && fresh(b') && fresh(c') && a' != b' && a' != c' && b' != c'
    ensures a'[..] == a[..] && b'[..] == b[..] && c'[..] == c[..]
    ensures forall o: object | Store(o) && fresh(o) :: o in {a', b', c'}
  {
    a' := Clone(a);
    b' := Clone(b);
    c' := Clone(c);
  }

  method ClearThree(a: array?<byte>, b: array?<byte>, c: array?<byte>)
    modifies Arrays(a) + Arrays(b) + Arrays(c)
    ensures forall x | x in Arrays(a) + Arrays(b) + Arrays(c) :: Wiped(x)
    ensures forall o: object | Store(o) :: !fresh(o)
  {
    ClearBytes(a);
    ClearBytes(b);
    ClearBytes(c);
  }

  /** The package's copies, before the roles are mapped. */
  class CallerInput {
    var password: array?<byte>
    var selfID: array?<byte>
    var peerID: array?<byte>
    var context: array?<byte>
    var sid: array?<byte>
    var localAD: array?<byte>

    ghost function Owned(): set<array<byte>>
      reads this
    {
      Arrays(password) + Arrays(selfID) + Arrays(peerID) + Arrays(context) + Arrays(sid) + Arrays(localAD)
    }

    ghost predicate Holds(input: Input)
      reads this, Owned()
    {
      && password != null && selfID != null && peerID != null && context != null && sid != null && localAD != null
      && password[..] == input.password && selfID[..] == input.selfID && peerID[..] == input.peerID
      && context[..] == input.context && sid[..] == input.sessionID && localAD[..] == input.localAD
    }

    constructor Copy(input: InputSlices)
      ensures Holds(input.Value()) && fresh(Owned())
      ensures Distinct()
      ensures forall o: object | Store(o) && fresh(o) :: o in Owned()
    {
      var a, b, c := CloneThree(input.password, input.selfID, input.peerID);
      var d, e, f := CloneThree(input.context, input.sessionID, input.localAD);
      password, selfID, peerID, context, sid, localAD := a, b, c, d, e, f;
    }

    /** No two of the copies share an array. */
    ghost predicate Distinct()
      reads this
    {
      && password != null && selfID != null && peerID != null && context != null && sid != null && localAD != null
      && password != selfID && password != peerID && password != context && password != sid && password != localAD
      && selfID != peerID && selfID != context && selfID != sid && selfID != localAD
      && peerID != context && peerID != sid && peerID != localAD
      && context != sid && context != localAD && sid != localAD
    }

    method Wipe()
      modifies Owned()
      ensures forall a | a in Owned() :: Wiped(a)
      ensures forall o: object | Store(o) :: !fresh(o)
    {
      ClearThree(password, selfID, peerID);
      ClearThree(context, sid, localAD);
    }

    /** Transfers the arrays to the normalized input and keeps none; the context
        has served its purpose in CI and is overwritten. */
    method Handoff(role: Role, ghost input: Input) returns (ni: NormalizedSlices)
      requires Holds(input) && Distinct()
      modifies this, context
      ensures Owned() == {} && Wiped(old(context))
      ensures ni.Value() == Normalize(input, role)
      ensures ni.password == old(password) && ni.sid == old(sid) && ni.ad == old(localAD) && fresh(ni.ci)
      ensures ni.PasswordApart()
      ensures forall o: object | Store(o) && fresh(o) :: o == ni.ci
      ensures if role.Initiator? then ni.initiatorID == old(selfID) && ni.responderID == old(peerID)
              else ni.initiatorID == old(peerID) && ni.responderID == old(selfID)
    {
      var initiatorID, responderID := selfID, peerID;
      if role.Responder? {
        initiatorID, responderID := peerID, selfID;
      }
      var ci := BuildCI(initiatorID, responderID, context);
      ClearBytes(context);
      context := null;
      ni := NormalizedSlices(password, initiatorID, responderID, ci, sid, localAD);
      password := null;
      selfID := null;
      peerID := null;
      sid := null;
      localAD := null;
    }
  }

  method BuildCI(initiatorID: array<byte>, responderID: array<byte>, context: array<byte>) returns (ci: array<byte>)
    ensures fresh(ci) && ci[..] == ChannelIdentifier(initiatorID[..], responderID[..], context[..])
    ensures forall o: object | Store(o) && fresh(o) :: o == ci
  {
    var b := LvCatInto([Ascii("CPace-Go-CI"), Ascii("draft-irtf-cfrg-cpace-21"), Ascii("CPACE-RISTR255-SHA512"),
                        Ascii("initiator"), initiatorID[..], Ascii("responder"), responderID[..], Ascii("context"), context[..]]);
    return b.data;
  }

  /** A struct passed by value: copies of it share the six arrays. */
  datatype NormalizedSlices = NormalizedSlices(
    password: array<byte>, initiatorID: array<byte>, responderID: array<byte>, ci: array<byte>,
    sid: array<byte>, ad: array<byte>)
  {
    ghost function Value(): Normalized
      reads password, initiatorID, responderID, ci, sid, ad
    {
      Normalized(password[..], initiatorID[..], responderID[..], ci[..], sid[..], ad[..])
    }

    ghost function Owned(): set<array<byte>> { {password, initiatorID, responderID, ci, sid, ad} }

    /** Overwriting the password leaves the other five alone. */
    ghost predicate PasswordApart() { password !in {initiatorID, responderID, ci, sid, ad} }

    method Wipe()
      modifies Owned()
      ensures forall a | a in Owned() :: Wiped(a)
      ensures forall o: object | Store(o) :: !fresh(o)
    {
      ClearBytes(password);
      ClearBytes(initiatorID);
      ClearBytes(responderID);
      ClearBytes(ci);
      ClearBytes(sid);
      ClearBytes(ad);
    }
  }

  // ----- acceptance -----

  const INPUT_CAPS := [CapField(MAX_PASSWORD, false), CapField(MAX_ID, false), CapField(MAX_ID, false),
                         CapField(MAX_CONTEXT, false), CapField(MAX_SESSION_ID, false), CapField(MAX_ASSOCIATED_DATA, false)]

  /** Checks before it copies: required fields, then the session id, then the
      caps. On failure nothing has been copied. */
  method AcceptInput(input: InputSlices) returns (r: Result<CallerInput>)
    ensures match InputError(input.Value())
            case Some(e) => r == Err(e)
            case None => r.Ok? && fresh(r.value) && fresh(r.value.Owned()) && r.value.Holds(input.Value()) && r.value.Distinct()
    ensures forall o: object | Store(o) && fresh(o) :: r.Ok? && o in r.value.Owned()
  {
    var required := [input.password, input.selfID, input.peerID];
    for i := 0 to |required|
      invariant forall k | 0 <= k < i :: required[k].Length > 0
    {
      if required[i].Length == 0 {
        return Err(ERR_INVALID_INPUT);
      }
    }
    assert required[0].Length > 0 && required[1].Length > 0 && required[2].Length > 0;
    if input.sessionID.Length == 0 && !input.allowEmptySessionID {
      return Err(Error([InvalidInput, EmptySessionID], None));
    }
    var capped := [input.password, input.selfID, input.peerID, input.context, input.sessionID, input.localAD];
    for i := 0 to |capped|
      invariant forall k | 0 <= k < i :: INPUT_CAPS[k].AcceptsInput(capped[k].Length)
    {
      if !INPUT_CAPS[i].AcceptsInput(capped[i].Length) {
        return Err(ERR_INVALID_INPUT);
      }
    }
    assert forall k | 0 <= k < 6 :: INPUT_CAPS[k].AcceptsInput(capped[k].Length);
    assert INPUT_CAPS[0].AcceptsInput(capped[0].Length) && INPUT_CAPS[1].AcceptsInput(capped[1].Length)
        && INPUT_CAPS[2].AcceptsInput(capped[2].Length) && INPUT_CAPS[3].AcceptsInput(capped[3].Length)
        && INPUT_CAPS[4].AcceptsInput(capped[4].Length) && INPUT_CAPS[5].AcceptsInput(capped[5].Length);
    var c := new CallerInput.Copy(input);
    return Ok(c);
  }

  /** The arrays that acceptance created, followed to the end of the call. */
  datatype Ledger = NotAccepted | Copies(context: array<byte>, ni: NormalizedSlices)
  {
    ghost function Owned(): set<array<byte>> { if NotAccepted? then {} else {context} + ni.Owned() }
  }

  method NormalizeInput(input: InputSlices, role: Role) returns (r: Result<NormalizedSlices>, ghost ledger: Ledger)
    ensures match InputError(input.Value())
            case Some(e) => r == Err(e) && ledger == NotAccepted
            case None => r.Ok? && ledger.Copies? && ledger.ni == r.value && fresh(ledger.Owned())
                         && r.value.Value() == Normalize(input.Value(), role) && Wiped(ledger.context)
                         && r.value.PasswordApart()
    ensures forall o: object | Store(o) && fresh(o) :: o in ledger.Owned()
  {
    var accepted := AcceptInput(input);
    if accepted.Err? {
      return Err(accepted.error), NotAccepted;
    }
    var caller := accepted.value;
    ghost var context := caller.context;
    ghost var value := input.Value();
    var ni := caller.Handoff(role, value);
    caller.Wipe();
    return Ok(ni), Copies(context, ni);
  }
}
