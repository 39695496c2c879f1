// The confirmed session: one key shared by all copies, closed once for all of
// them. Source: session.go.
module Sessions {
  import opened ByteStrings
  import opened CallerInputs
  import opened Errors
  import opened HashInputs
  import opened LengthValue
  import opened Suite
  import Protocol

  const MAX_HKDF_OUTPUT := 16320

  // ----- the critical sections, on values -----

  /** The state behind the mutex: the key, or its absence after Close. */
  datatype KeyState = KeyState(closed: bool, isk: Option<Bytes>)

  datatype Call = ExportCall(purpose: Bytes, context: Bytes, length: int) | CloseCall

  datatype Reply = Exported(key: Bytes) | Closed | Failed(error: Error)

  /** One Export or Close, run to completion under the lock. */
  function Serve(p: Primitives, s: KeyState, c: Call): (KeyState, Reply)
    requires s.closed || s.isk.Some?
  {
    match c
    case CloseCall => (KeyState(true, None), Closed)
    case ExportCall(purpose, context, length) =>
      if s.closed then (s, Failed(ERR_SESSION_CLOSED))
      else if length < 0 || length > MAX_HKDF_OUTPUT then (s, Failed(ERR_INVALID_INPUT))
      else (s, Exported(p.hkdf(s.isk.value, ExportInfo(purpose, context), length)))
  }

  /** The state after a sequence of calls, in the order in which they got the
      lock, whichever copies and goroutines they came from. */
  function After(p: Primitives, isk: Bytes, calls: seq<Call>): (s: KeyState)
    ensures s.closed || s.isk.Some?
  {
    if calls == [] then KeyState(false, Some(isk))
    else Serve(p, After(p, isk, calls[..|calls| - 1]), calls[|calls| - 1]).0
  }

  lemma {:induction false} AfterIsClosed(p: Primitives, isk: Bytes, calls: seq<Call>)
    ensures After(p, isk, calls) == if CloseCall in calls then KeyState(true, None) else KeyState(false, Some(isk))
  {
    if calls != [] {
      var n := |calls| - 1;
      AfterIsClosed(p, isk, calls[..n]);
      assert CloseCall in calls <==> CloseCall in calls[..n] || calls[n] == CloseCall;
    }
  }

  /** Every interleaving is a sequential history: each call in it is answered as
      if made on the original key before the first Close or on a closed session
      after it. No export is ever derived from an overwritten key. */
  lemma SessionLinearises(p: Primitives, isk: Bytes, calls: seq<Call>, i: nat)
    requires i < |calls| && p.Laws()
    ensures var reply := Serve(p, After(p, isk, calls[..i]), calls[i]).1;
            match calls[i]
            case CloseCall => reply == Closed
            case ExportCall(purpose, context, length) =>
              if exists j :: 0 <= j < i && calls[j] == CloseCall then reply == Failed(Error([SessionClosed], None))
              else if 0 <= length <= 16320 then
                && reply == Exported(p.hkdf(isk, LvCat([Ascii("CPaceExport"), purpose, context]), length))
                && |reply.key| == length
              else reply == Failed(Error([InvalidInput], None))
  {
    AfterIsClosed(p, isk, calls[..i]);
    assert CloseCall in calls[..i] <==> exists j :: 0 <= j < i && calls[j] == CloseCall;
  }

  // ----- the objects -----

  class SessionState {
    var closed: bool
    var isk: array?<byte>

    ghost predicate Valid()
      reads this
    {
      closed <==> isk == null
    }

    ghost function Value(): KeyState
      reads this, Arrays(isk)
    {
      KeyState(closed, if isk == null then None else Some(isk[..]))
    }

    constructor (isk: array<byte>)
      ensures Valid() && this.isk == isk
      ensures forall o: object | Store(o) :: !fresh(o)
    {
      this.closed := false;
      this.isk := isk;
    }
  }

  /** A struct whose copies share the state and the metadata arrays. */
  class Session {
    const state: SessionState?
    const transcriptID: array<byte>
    const peerAD: array<byte>
    const peerID: array<byte>

    ghost function Metadata(): set<array<byte>> { {transcriptID, peerAD, peerID} }

    ghost predicate Valid()
      reads state
    {
      state != null ==> state.Valid() && (state.isk != null ==> state.isk !in Metadata())
    }

    /** An open session holding the given values. */
    ghost predicate Holds(s: Protocol.Session)
      reads state, Metadata(), if state == null then {} else Arrays(state.isk)
    {
      && state != null && Valid() && !state.closed && state.isk[..] == s.isk
      && transcriptID[..] == s.transcriptID && peerAD[..] == s.peerAD && peerID[..] == s.peerID
    }

    ghost function Owned(): set<array<byte>>
      reads state
    {
      Metadata() + if state == null then {} else Arrays(state.isk)
    }

    /** Clones everything it is given. */
    constructor (isk: array<byte>, transcriptID: Bytes, peerAD: Bytes, peerID: array<byte>)
      ensures Holds(Protocol.Session(isk[..], transcriptID, peerAD, peerID[..]))
      ensures fresh(state) && fresh(Owned())
      ensures forall o: object | Store(o) && fresh(o) :: o in Owned()
    {
      var key := Clone(isk);
      state := new SessionState(key);
      var id := FromSeq(transcriptID);
      var ad := FromSeq(peerAD);
      var peer := Clone(peerID);
      this.transcriptID, this.peerAD, this.peerID := id, ad, peer;
    }

    /** The zero value, which no Finish returns. */
    constructor Zero()
      ensures state == null && Valid()
    {
      state := null;
      transcriptID, peerAD, peerID := new byte[0], new byte[0], new byte[0];
    }

    /** Overwrites and drops the key; the metadata stays readable. */
    method Close() returns (r: Result<()>)
      requires Valid()
      modifies state, if state == null then {} else Arrays(state.isk)
      ensures Valid()
      ensures state == null ==> r == Err(ERR_INVALID_INPUT)
      ensures state != null ==> r == Ok(()) && state.closed && state.isk == null
      ensures state != null && old(state.isk) != null ==> Wiped(old(state.isk))
      ensures forall p: Primitives | state != null :: state.Value() == Serve(p, old(state.Value()), CloseCall).0
      ensures forall a | a in Metadata() :: a[..] == old(a[..])
    {
      if state == null {
        return Err(ERR_INVALID_INPUT);
      }
      if !state.closed {
        ClearBytes(state.isk);
        state.isk := null;
        state.closed := true;
      }
      return Ok(());
    }

    method Export(p: Primitives, purpose: Bytes, context: Bytes, length: int) returns (r: Result<array<byte>>)
      requires Valid()
      ensures state == null ==> r == Err(ERR_INVALID_INPUT)
      ensures state != null ==>
                match Serve(p, state.Value(), ExportCall(purpose, context, length)).1
                case Exported(key) => r.Ok? && fresh(r.value) && r.value[..] == key
                case Failed(e) => r == Err(e)
                case Closed => false
    {
      if state == null {
        return Err(ERR_INVALID_INPUT);
      }
      if state.closed {
        return Err(ERR_SESSION_CLOSED);
      }
      if length < 0 || length > MAX_HKDF_OUTPUT {
        return Err(ERR_INVALID_INPUT);
      }
      var info := LvCatInto([Ascii("CPaceExport"), purpose, context]);
      assert info.data[..] == info.Contents();
      var out := FromSeq(p.hkdf(state.isk[..], info.data[..], length));
      return Ok(out);
    }

    method TranscriptID() returns (out: array<byte>)
      ensures fresh(out) && out[..] == transcriptID[..]
    {
      out := Clone(transcriptID);
    }

    method PeerAssociatedData() returns (out: array<byte>)
      ensures fresh(out) && out[..] == peerAD[..]
    {
      out := Clone(peerAD);
    }

    method PeerID() returns (out: array<byte>)
      ensures fresh(out) && out[..] == peerID[..]
    {
      out := Clone(peerID);
    }
  }
}
