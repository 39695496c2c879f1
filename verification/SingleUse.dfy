// The terminal state of a role instance: the lock-protected claim, and every
// interleaving of the calls that race for it. Source: terminal_state.go, api.go.
module SingleUse {
  import opened ByteStrings
  import opened Errors

  datatype Kind = Finish | Close

  /** The fields guarded by the mutex: is there a core, and has it been claimed. */
  datatype Gate = Gate(present: bool, used: bool)

  datatype Claim = Won | Lost | Refused(error: Error)

  /** One critical section. Only a Finish that comes late gets an error. */
  function Claimed(g: Gate, k: Kind): (Gate, Claim)
  {
    if g.used then (g, if k.Finish? then Refused(ERR_STATE_USED) else Lost)
    else if !g.present then (g, Refused(ERR_INVALID_INPUT))
    else (g.(used := true), Won)
  }

  /** Shared by all copies of a role instance; the core is fixed for good. */
  class SingleUseState<C> {
    const core: Option<C>
    var used: bool

    ghost function Value(): Gate
      reads this
    {
      Gate(core.Some?, used)
    }

    constructor (core: Option<C>)
      ensures this.core == core && !used
      ensures forall o: object | Store(o) :: !fresh(o)
    {
      this.core := core;
      used := false;
    }

    method ClaimFinish() returns (r: Result<C>)
      modifies this
      ensures Value() == Claimed(old(Value()), Finish).0
      ensures match Claimed(old(Value()), Finish).1
              case Won => core.Some? && r == Ok(core.value)
              case Refused(e) => r == Err(e)
              case Lost => false
      ensures forall o: object | Store(o) :: !fresh(o)
    {
      if used {
        return Err(ERR_STATE_USED);
      }
      if core.None? {
        return Err(ERR_INVALID_INPUT);
      }
      used := true;
      return Ok(core.value);
    }

    /** A claim lost to an earlier terminal call is not an error: no core. */
    method ClaimClose() returns (r: Result<Option<C>>)
      modifies this
      ensures Value() == Claimed(old(Value()), Close).0
      ensures match Claimed(old(Value()), Close).1
              case Won => core.Some? && r == Ok(core)
              case Lost => r == Ok(None)
              case Refused(e) => r == Err(e)
      ensures forall o: object | Store(o) :: !fresh(o)
    {
      if used {
        return Ok(None);
      }
      if core.None? {
        return Err(ERR_INVALID_INPUT);
      }
      used := true;
      return Ok(core);
    }
  }

  // ----- interleavings -----

  datatype Secret = Live | Zeroed | Dropped

  datatype Reply = Accepted | Rejected(error: Error) | ClosedNil

  /** Where a call stands. A winner is Holding, then has Computed (a Finish
      only), then has Wiped the secret, then drops it and returns. */
  datatype Pc =
    | Ready
    | Holding
    | Computed(outcome: Option<Error>)
    | Wiped(outcome: Option<Error>)
    | Done(reply: Reply)

  datatype Thread = Thread(kind: Kind, pc: Pc, won: bool)

  /** `touches` logs who accessed the core and how it found the secret. */
  datatype System = System(gate: Gate, secret: Secret, threads: seq<Thread>, touches: seq<(nat, Secret)>)

  /** The scheduler picks a thread; `outcome` is how its computation would end. */
  datatype Tick = Tick(thread: nat, outcome: Option<Error>)

  function ReplyOf(k: Kind, outcome: Option<Error>): Reply
  {
    if k.Close? then ClosedNil else if outcome.None? then Accepted else Rejected(outcome.value)
  }

  function Step(s: System, t: Tick): System
  {
    if t.thread >= |s.threads| then s
    else
      var i := t.thread;
      var th := s.threads[i];
      match th.pc
      case Ready =>
        (match Claimed(s.gate, th.kind)
         case (g, Won) => s.(gate := g, threads := s.threads[i := Thread(th.kind, Holding, true)])
         case (g, Lost) => s.(gate := g, threads := s.threads[i := th.(pc := Done(ClosedNil))])
         case (g, Refused(e)) => s.(gate := g, threads := s.threads[i := th.(pc := Done(Rejected(e)))]))
      case Holding =>
        if th.kind.Finish? then
          s.(threads := s.threads[i := th.(pc := Computed(t.outcome))], touches := s.touches + [(i, s.secret)])
        else
          s.(secret := Zeroed, threads := s.threads[i := th.(pc := Wiped(None))], touches := s.touches + [(i, s.secret)])
      case Computed(outcome) =>
        s.(secret := Zeroed, threads := s.threads[i := th.(pc := Wiped(outcome))], touches := s.touches + [(i, s.secret)])
      case Wiped(outcome) =>
        s.(secret := Dropped, threads := s.threads[i := th.(pc := Done(ReplyOf(th.kind, outcome)))], touches := s.touches + [(i, s.secret)])
      case Done(_) => s
  }

  /** Any number of calls, of any kinds, on copies of one instance. */
  function Initial(present: bool, kinds: seq<Kind>): System
  {
    System(Gate(present, false), Live, seq(|kinds|, i requires 0 <= i < |kinds| => Thread(kinds[i], Ready, false)), [])
  }

  function Execute(present: bool, kinds: seq<Kind>, schedule: seq<Tick>): System
  {
    if schedule == [] then Initial(present, kinds)
    else Step(Execute(present, kinds, schedule[..|schedule| - 1]), schedule[|schedule| - 1])
  }

  /** The winner's position determines the secret. */
  predicate SecretFits(pc: Pc, secret: Secret)
  {
    match pc
    case Ready => false
    case Holding => secret == Live
    case Computed(_) => secret == Live
    case Wiped(_) => secret == Zeroed
    case Done(_) => secret == Dropped
  }

  predicate LoserReplied(g: Gate, th: Thread)
  {
    && !th.won
    && th.pc == Done(if !g.present then Rejected(ERR_INVALID_INPUT)
                     else if th.kind.Finish? then Rejected(ERR_STATE_USED) else ClosedNil)
  }

  ghost predicate Untouched(s: System)
  {
    && !s.gate.used && s.secret == Live && s.touches == []
    && (forall i | 0 <= i < |s.threads| ::
          s.threads[i] == Thread(s.threads[i].kind, Ready, false)
          || (!s.gate.present && LoserReplied(s.gate, s.threads[i])))
  }

  ghost predicate WonBy(s: System, w: nat)
  {
    && s.gate == Gate(true, true)
    && w < |s.threads| && s.threads[w].won && SecretFits(s.threads[w].pc, s.secret)
    && (s.threads[w].kind.Close? ==> !s.threads[w].pc.Computed? && (s.threads[w].pc.Done? ==> s.threads[w].pc.reply == ClosedNil))
    && (forall i | 0 <= i < |s.threads| && i != w ::
          s.threads[i] == Thread(s.threads[i].kind, Ready, false) || LoserReplied(s.gate, s.threads[i]))
    && (forall k | 0 <= k < |s.touches| :: s.touches[k].0 == w)
    && (s.threads[w].pc.Holding? ==> s.touches == [])
    && (s.threads[w].pc.Computed? ==> s.touches == [(w, Live)])
    && (!s.threads[w].pc.Holding? ==> s.touches != [] && s.touches[0].1 == Live)
  }

  lemma WinnerSteps(s: System, w: nat, t: Tick)
    requires WonBy(s, w) && t.thread == w
    ensures WonBy(Step(s, t), w)
  {
    var s' := Step(s, t);
    assert forall i | 0 <= i < |s.threads| && i != w :: s'.threads[i] == s.threads[i];
    if s.threads[w].pc.Holding? || s.threads[w].pc.Computed? || s.threads[w].pc.Wiped? {
      assert s'.touches == s.touches + [(w, s.secret)];
    }
  }

  lemma OthersStep(s: System, w: nat, t: Tick)
    requires WonBy(s, w) && t.thread != w
    ensures WonBy(Step(s, t), w)
  {
    var s' := Step(s, t);
    if t.thread < |s.threads| {
      assert forall i | 0 <= i < |s.threads| && i != t.thread :: s'.threads[i] == s.threads[i];
      assert s'.gate == s.gate && s'.touches == s.touches && s'.secret == s.secret;
    }
  }

  lemma StepKeeps(s: System, t: Tick)
    requires Untouched(s) || exists w: nat :: WonBy(s, w)
    ensures Untouched(Step(s, t)) || exists w: nat :: WonBy(Step(s, t), w)
  {
    if Untouched(s) {
      var s' := Step(s, t);
      if t.thread < |s.threads| && Claimed(s.gate, s.threads[t.thread].kind).1.Won? && s.threads[t.thread].pc.Ready? {
        assert WonBy(s', t.thread);
      } else {
        assert Untouched(s');
      }
    } else {
      var w: nat :| WonBy(s, w);
      if t.thread == w {
        WinnerSteps(s, w, t);
      } else {
        OthersStep(s, w, t);
      }
    }
  }

  lemma {:induction false} ExecuteKeeps(present: bool, kinds: seq<Kind>, schedule: seq<Tick>)
    ensures var s := Execute(present, kinds, schedule);
            && |s.threads| == |kinds| && (forall i | 0 <= i < |kinds| :: s.threads[i].kind == kinds[i])
            && s.gate.present == present
            && (Untouched(s) || exists w: nat :: WonBy(s, w))
  {
    if schedule != [] {
      var n := |schedule| - 1;
      ExecuteKeeps(present, kinds, schedule[..n]);
      StepKeeps(Execute(present, kinds, schedule[..n]), schedule[n]);
    }
  }

  /** In every interleaving: at most one call wins, exactly one once any call on
      a real core has returned; every other Finish returns ErrStateUsed, every
      other Close nil; only the winner touches the core and its computation
      finds the secret intact; and once the winner has returned, however its
      computation ended, the secret is gone. */
  lemma SingleUseSafety(present: bool, kinds: seq<Kind>, schedule: seq<Tick>)
    ensures var s := Execute(present, kinds, schedule);
            && |s.threads| == |kinds|
            && (forall i, j | 0 <= i < |kinds| && 0 <= j < |kinds| && s.threads[i].won && s.threads[j].won :: i == j)
            && (present && (exists i :: 0 <= i < |kinds| && s.threads[i].pc.Done?) ==>
                  exists w :: 0 <= w < |kinds| && s.threads[w].won)
            && (forall i | 0 <= i < |kinds| && s.threads[i].pc.Done? && !s.threads[i].won ::
                  s.threads[i].pc.reply == if !present then Rejected(Error([InvalidInput], None))
                                           else if kinds[i].Finish? then Rejected(Error([StateUsed], None)) else ClosedNil)
            && (forall k | 0 <= k < |s.touches| :: s.touches[k].0 < |kinds| && s.threads[s.touches[k].0].won)
            && (|s.touches| > 0 ==> s.touches[0].1 == Live)
            && (forall i | 0 <= i < |kinds| && s.threads[i].won && s.threads[i].pc.Done? :: s.secret == Dropped)
            && (forall i | 0 <= i < |kinds| && s.threads[i].won && s.threads[i].pc.Holding? :: s.secret == Live)
  {
    ExecuteKeeps(present, kinds, schedule);
    var s := Execute(present, kinds, schedule);
    if w: nat :| WonBy(s, w) {
      assert forall i | 0 <= i < |kinds| && s.threads[i].won :: i == w;
    }
  }

  /** No call is ever stuck: in every interleaving, four steps of its own finish
      a call, whatever the others hold. The first call to move on an unclaimed
      core wins, computes on the live secret if it is a Finish, leaves the
      secret overwritten and dropped, and returns what it computed. */
  lemma Progress(present: bool, kinds: seq<Kind>, schedule: seq<Tick>, i: nat, outcome: Option<Error>)
    requires i < |kinds|
    ensures var t := Tick(i, outcome);
            var (s, s') := (Execute(present, kinds, schedule), Execute(present, kinds, schedule + [t, t, t, t]));
            && |s.threads| == |s'.threads| == |kinds| && s'.threads[i].pc.Done?
            && (forall j | 0 <= j < |kinds| && j != i :: s'.threads[j] == s.threads[j])
            && (present && s.threads[i].pc.Ready? && (forall j | 0 <= j < |kinds| :: !s.threads[j].won) ==>
                  && s'.threads[i].won && s'.secret == Dropped
                  && s'.threads[i].pc.reply == (if kinds[i].Close? then ClosedNil
                                                else if outcome.None? then Accepted else Rejected(outcome.value))
                  && s'.touches == (if kinds[i].Finish? then [(i, Live)] else []) + [(i, Live), (i, Zeroed)])
  {
    var t := Tick(i, outcome);
    var s := Execute(present, kinds, schedule);
    ExecuteKeeps(present, kinds, schedule);
    FourMore(present, kinds, schedule, t);
    if w: nat :| WonBy(s, w) {
      assert s.threads[w].won;
    }
  }

  lemma FourMore(present: bool, kinds: seq<Kind>, schedule: seq<Tick>, t: Tick)
    ensures Execute(present, kinds, schedule + [t, t, t, t]) ==
              Step(Step(Step(Step(Execute(present, kinds, schedule), t), t), t), t)
  {
    var one, two, three := schedule + [t], schedule + [t, t], schedule + [t, t, t];
    OneMore(present, kinds, schedule, t);
    assert two == one + [t] && three == two + [t] && schedule + [t, t, t, t] == three + [t];
    OneMore(present, kinds, one, t);
    OneMore(present, kinds, two, t);
    OneMore(present, kinds, three, t);
  }

  lemma OneMore(present: bool, kinds: seq<Kind>, schedule: seq<Tick>, t: Tick)
    ensures Execute(present, kinds, schedule + [t]) == Step(Execute(present, kinds, schedule), t)
  {
    assert (schedule + [t])[..|schedule|] == schedule;
  }
}
