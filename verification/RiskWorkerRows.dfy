/**
 Stored certificates that can never be read back (packages/services/src/risk-worker.ts:139-140,
 252-261 and 278-286): when a run stores one, and that nothing repairs it.
 */
module RiskWorkerRows {
  import opened RiskWorker
  import opened RiskWorkerSafety
  import opened Wrappers

  // ----- Where certificates come from

  /** The certificate a suspended tick carries. */
  function Carried(phase: Phase): Option<Certificate> {
    match phase
    case AwaitSigningContext(_, c) => Some(c)
    case AwaitSigningGrant(_, c) => Some(c)
    case AwaitSignature(_, c) => Some(c)
    case AwaitReceipt(_, _, w) => Some(w.certificate)
    case AwaitReceiptCanonical(_, _, w, _) => Some(w.certificate)
    case AwaitFinalized(_, _, w, _, _) => Some(w.certificate)
    case AwaitRecheck(_, _, w, _, _, _) => Some(w.certificate)
    case AwaitSubmitPolicy(_, w) => Some(w.certificate)
    case AwaitSubmitContext(_, w) => Some(w.certificate)
    case AwaitSendGrant(_, w) => Some(w.certificate)
    case AwaitSend(_, w) => Some(w.certificate)
    case _ => None
  }

  ghost predicate CarriesOnly(s: System, known: iset<Certificate>) {
    && (s.workflow.Some? ==> s.workflow.value.certificate in known)
    && forall t :: t in s.ticks && Carried(s.ticks[t]).Some? ==> Carried(s.ticks[t]).value in known
  }

  /** The step builds c from the policy answer `validUntil`. */
  ghost predicate Builds(s: System, action: Action, c: Certificate, validUntil: int) {
    && action.Resume? && action.tick in s.ticks && action.answer == PolicyIs(validUntil)
    && s.ticks[action.tick].AwaitPolicy? && Owns(s, s.ticks[action.tick].attempt)
    && c == NewCertificate(s, s.ticks[action.tick].context, s.ticks[action.tick].evaluation, validUntil)
  }

  lemma EndCarries(s: System, tick: nat, attempt: nat, known: iset<Certificate>)
    requires CarriesOnly(s, known)
    ensures CarriesOnly(End(s, tick, attempt), known)
  {
  }

  lemma ContextCarries(s: System, tick: nat, attempt: nat, context: Context, known: iset<Certificate>)
    requires CarriesOnly(s, known)
    ensures CarriesOnly(OnContext(s, tick, attempt, context), known)
  {
  }

  lemma AnswerCarries(s: System, tick: nat, answer: Answer, known: iset<Certificate>)
    requires CarriesOnly(s, known) && tick in s.ticks
    requires forall c, v :: Builds(s, Resume(tick, answer), c, v) ==> c in known
    ensures CarriesOnly(OnAnswer(s, tick, s.ticks[tick], answer), known)
  {
    hide OnContext, NewCertificate;
    var phase := s.ticks[tick];
    if phase.AwaitPolicy? && answer.PolicyIs? && Owns(s, phase.attempt) {
      assert Builds(s, Resume(tick, answer), NewCertificate(s, phase.context, phase.evaluation, answer.validUntil),
        answer.validUntil);
    }
    if phase.AwaitContext? && answer.ContextIs? {
      ContextCarries(s, tick, phase.attempt, answer.context, known);
    }
  }

  lemma StepCarries(s: System, action: Action, known: iset<Certificate>)
    requires CarriesOnly(s, known) && forall c, v :: Builds(s, action, c, v) ==> c in known
    ensures CarriesOnly(Step(s, action), known)
  {
    hide OnAnswer, Builds;
    match action
    case Claim(_) =>
    case Resume(tick, answer) =>
      if tick in s.ticks {
        AnswerCarries(s, tick, answer, known);
      }
    case Throw(tick) =>
      if tick in s.ticks {
        EndCarries(s, tick, s.ticks[tick].attempt, known);
      }
    case Crash(_) =>
    case Elapse(_) =>
  }

  /** Step j of a run builds c, at clock `at`, from the policy answer `validUntil`. */
  ghost predicate BuiltAt(options: Options, now: int, actions: seq<Action>, j: nat, c: Certificate,
    validUntil: int, at: int)
  {
    && j < |actions| && at == Run(Init(options, now), actions[..j]).now
    && Builds(Run(Init(options, now), actions[..j]), actions[j], c, validUntil)
  }

  ghost predicate Built(options: Options, now: int, actions: seq<Action>, c: Certificate) {
    exists j: nat, validUntil, at :: BuiltAt(options, now, actions, j, c, validUntil, at)
  }

  lemma BuiltStays(options: Options, now: int, actions: seq<Action>, last: Action, c: Certificate)
    requires Built(options, now, actions, c)
    ensures Built(options, now, actions + [last], c)
  {
    hide Run, Builds;
    var j: nat, v, at :| BuiltAt(options, now, actions, j, c, v, at);
    assert (actions + [last])[..j] == actions[..j];
    assert BuiltAt(options, now, actions + [last], j, c, v, at);
  }

  lemma BuiltByLast(options: Options, now: int, actions: seq<Action>, last: Action, c: Certificate, validUntil: int)
    requires Builds(Run(Init(options, now), actions), last, c, validUntil)
    ensures Built(options, now, actions + [last], c)
  {
    hide Run, Builds;
    assert (actions + [last])[..|actions|] == actions;
    assert BuiltAt(options, now, actions + [last], |actions|, c, validUntil, Run(Init(options, now), actions).now);
  }

  /** Every certificate a run stores or carries was built by one of its steps. */
  lemma {:induction false} RunCarries(options: Options, now: int, actions: seq<Action>)
    ensures CarriesOnly(Run(Init(options, now), actions), iset c: Certificate | Built(options, now, actions, c))
    decreases |actions|
  {
    if actions != [] {
      hide Built, Builds, Step;
      var front, last := actions[..|actions| - 1], actions[|actions| - 1];
      RunCarries(options, now, front);
      var s, known := Run(Init(options, now), front), iset c: Certificate | Built(options, now, actions, c);
      assert actions == front + [last];
      forall c | Built(options, now, front, c)
        ensures c in known
      {
        BuiltStays(options, now, front, last, c);
      }
      forall c, v | Builds(s, last, c, v)
        ensures c in known
      {
        BuiltByLast(options, now, front, last, c, v);
      }
      StepCarries(s, last, known);
    }
  }

  // ----- When an unreadable row arises

  /** Built when the policy had already run out, or with no lifetime at all. */
  ghost predicate BuiltTooLate(options: Options, now: int, actions: seq<Action>, c: Certificate) {
    exists j: nat, validUntil, at :: BuiltAt(options, now, actions, j, c, validUntil, at)
                                && (validUntil <= at || options.certificateLifetimeSeconds <= 0)
  }

  lemma {:induction false} OptionsStay(options: Options, now: int, actions: seq<Action>)
    ensures Run(Init(options, now), actions).options == options
    decreases |actions|
  {
    if actions != [] {
      OptionsStay(options, now, actions[..|actions| - 1]);
      StepKeepsOptions(Run(Init(options, now), actions[..|actions| - 1]), actions[|actions| - 1]);
    }
  }

  lemma StepKeepsOptions(s: System, action: Action)
    ensures Step(s, action).options == s.options
  {
  }

  lemma BuiltReadableIff(options: Options, now: int, actions: seq<Action>, j: nat, c: Certificate,
    validUntil: int, at: int)
    requires BuiltAt(options, now, actions, j, c, validUntil, at)
    ensures c.expiresAt <= c.issuedAt <==> validUntil <= at || options.certificateLifetimeSeconds <= 0
  {
    hide Run;
    OptionsStay(options, now, actions[..j]);
  }

  /** The stored row cannot be read back exactly when its certificate was built too late. */
  lemma UnreadableRowIff(options: Options, now: int, actions: seq<Action>)
    requires Run(Init(options, now), actions).workflow.Some?
    ensures var w := Run(Init(options, now), actions).workflow.value;
            !Readable(w) <==> BuiltTooLate(options, now, actions, w.certificate)
  {
    hide Run, BuiltAt;
    var c := Run(Init(options, now), actions).workflow.value.certificate;
    RunCarries(options, now, actions);
    var j: nat, v, at :| BuiltAt(options, now, actions, j, c, v, at);
    BuiltReadableIff(options, now, actions, j, c, v, at);
    if BuiltTooLate(options, now, actions, c) {
      var j': nat, v', at' :| BuiltAt(options, now, actions, j', c, v', at')
        && (v' <= at' || options.certificateLifetimeSeconds <= 0);
      BuiltReadableIff(options, now, actions, j', c, v', at');
    }
  }

  /** The policy answer of step j, if it gives one, lies in the future. */
  ghost predicate OutlivesClock(options: Options, now: int, actions: seq<Action>, j: nat)
    requires j < |actions|
  {
    actions[j].Resume? && actions[j].answer.PolicyIs? ==>
      Run(Init(options, now), actions[..j]).now < actions[j].answer.validUntil
  }

  /** A run whose policy answers always outlive the clock never stores an unreadable row. */
  lemma OutlivingPoliciesStayReadable(options: Options, now: int, actions: seq<Action>)
    requires 0 < options.certificateLifetimeSeconds
    requires forall j :: 0 <= j < |actions| ==> OutlivesClock(options, now, actions, j)
    ensures var s := Run(Init(options, now), actions); s.workflow.Some? ==> Readable(s.workflow.value)
  {
    hide Run;
    var s := Run(Init(options, now), actions);
    if s.workflow.Some? {
      UnreadableRowIff(options, now, actions);
      forall j: nat, c, v, at | BuiltAt(options, now, actions, j, c, v, at)
        ensures at < v
      {
        assert OutlivesClock(options, now, actions, j);
      }
    }
  }

  /** A wallet that signs only certificates outliving their issue, as the shipped adapter does. */
  ghost predicate RefusesUnreadable(options: Options, now: int, actions: seq<Action>, j: nat)
    requires j < |actions|
  {
    var s := Run(Init(options, now), actions[..j]);
    (&& actions[j].Resume? && actions[j].answer.SignatureIs?
     && actions[j].tick in s.ticks && s.ticks[actions[j].tick].AwaitSignature?) ==>
      s.ticks[actions[j].tick].certificate.issuedAt < s.ticks[actions[j].tick].certificate.expiresAt
  }

  /** The stored row is readable, and so are the rows suspended ticks hold. */
  ghost predicate StoresReadable(s: System) {
    && (s.workflow.Some? ==> Readable(s.workflow.value))
    && forall t :: t in s.ticks && HeldRow(s.ticks[t]).Some? ==> Readable(HeldRow(s.ticks[t]).value)
  }

  function HeldRow(phase: Phase): Option<Workflow> {
    match phase
    case AwaitReceipt(_, _, w) => Some(w)
    case AwaitReceiptCanonical(_, _, w, _) => Some(w)
    case AwaitFinalized(_, _, w, _, _) => Some(w)
    case AwaitRecheck(_, _, w, _, _, _) => Some(w)
    case AwaitSubmitPolicy(_, w) => Some(w)
    case AwaitSubmitContext(_, w) => Some(w)
    case AwaitSendGrant(_, w) => Some(w)
    case AwaitSend(_, w) => Some(w)
    case _ => None
  }

  lemma AnswerStoresReadable(s: System, tick: nat, answer: Answer)
    requires StoresReadable(s) && tick in s.ticks
    requires s.ticks[tick].AwaitSignature? && answer.SignatureIs? ==>
               s.ticks[tick].certificate.issuedAt < s.ticks[tick].certificate.expiresAt
    ensures StoresReadable(OnAnswer(s, tick, s.ticks[tick], answer))
  {
    hide OnContext, NewCertificate;
    if s.ticks[tick].AwaitContext? && answer.ContextIs? {
      ContextStoresReadable(s, tick, s.ticks[tick].attempt, answer.context);
    }
  }

  lemma ContextStoresReadable(s: System, tick: nat, attempt: nat, context: Context)
    requires StoresReadable(s)
    ensures StoresReadable(OnContext(s, tick, attempt, context))
  {
  }

  /** With such a wallet no run stores an unreadable row, whatever the policy answers. */
  lemma {:induction false} RefusingWalletsStayReadable(options: Options, now: int, actions: seq<Action>)
    requires forall j :: 0 <= j < |actions| ==> RefusesUnreadable(options, now, actions, j)
    ensures StoresReadable(Run(Init(options, now), actions))
    decreases |actions|
  {
    if actions != [] {
      hide OnAnswer, StoresReadable, HeldRow;
      var front, last := actions[..|actions| - 1], actions[|actions| - 1];
      forall j | 0 <= j < |front|
        ensures RefusesUnreadable(options, now, front, j)
      {
        assert front[..j] == actions[..j];
        assert RefusesUnreadable(options, now, actions, j);
      }
      RefusingWalletsStayReadable(options, now, front);
      var s := Run(Init(options, now), front);
      assert RefusesUnreadable(options, now, actions, |front|);
      StepStoresReadable(s, last);
    }
  }

  lemma StepStoresReadable(s: System, action: Action)
    requires StoresReadable(s)
    requires (&& action.Resume? && action.answer.SignatureIs?
              && action.tick in s.ticks && s.ticks[action.tick].AwaitSignature?) ==>
               s.ticks[action.tick].certificate.issuedAt < s.ticks[action.tick].certificate.expiresAt
    ensures StoresReadable(Step(s, action))
  {
    hide OnAnswer;
    match action
    case Resume(tick, answer) =>
      if tick in s.ticks {
        AnswerStoresReadable(s, tick, answer);
      }
    case _ =>
  }

  // ----- What an unreadable row does

  /** The stored row cannot be read back, and the lease holder, if any, has yet to read it. */
  ghost predicate Poisoned(s: System) {
    && s.workflow.Some? && !Readable(s.workflow.value) && IdleHolder(s)
  }

  ghost predicate IdleHolder(s: System) {
    forall t :: t in s.ticks && Owns(s, s.ticks[t].attempt) ==> s.ticks[t].AwaitContext?
  }

  /** h' continues h with nothing but signatures made without the lease. */
  ghost predicate OnlyStaleSignatures(h: seq<Event>, h': seq<Event>) {
    h <= h' && forall i :: |h| <= i < |h'| ==> h'[i].Signed? && !h'[i].leaseHeld
  }

  lemma PoisonedStep(s: System, action: Action)
    requires Fenced(s) && Poisoned(s)
    ensures Fenced(Step(s, action)) && Poisoned(Step(s, action)) && Step(s, action).workflow == s.workflow
    ensures OnlyStaleSignatures(s.history, Step(s, action).history)
  {
  }

  /** Nothing is ever evaluated, stored, sent or closed again; at most a tick without the lease still signs. */
  lemma {:induction false} PoisonedForever(s: System, actions: seq<Action>)
    requires Fenced(s) && Poisoned(s)
    ensures Fenced(Run(s, actions)) && Poisoned(Run(s, actions)) && Run(s, actions).workflow == s.workflow
    ensures OnlyStaleSignatures(s.history, Run(s, actions).history)
    decreases |actions|
  {
    if actions != [] {
      hide Fenced, Poisoned, Step;
      PoisonedForever(s, actions[..|actions| - 1]);
      PoisonedStep(Run(s, actions[..|actions| - 1]), actions[|actions| - 1]);
    }
  }

  /** A run that stores such a row: the policy had run out, and the certificate was signed all the same. */
  lemma PoisonedReachable()
    ensures exists s :: Reachable(s, OPTIONS, 0) && Poisoned(s)
  {
    hide Reachable;
    var s0 := Init(OPTIONS, 0);
    InitReachable(OPTIONS, 0);
    var s1 := Step(s0, Claim(1));
    StepReachable(s0, Claim(1), OPTIONS, 0);
    var s2 := Step(s1, Resume(1, ContextIs(CONTEXT)));
    StepReachable(s1, Resume(1, ContextIs(CONTEXT)), OPTIONS, 0);
    var s3 := Step(s2, Resume(1, EvaluationIs(Some("a"))));
    StepReachable(s2, Resume(1, EvaluationIs(Some("a"))), OPTIONS, 0);
    var s4 := Step(s3, Resume(1, PolicyIs(0)));
    StepReachable(s3, Resume(1, PolicyIs(0)), OPTIONS, 0);
    var s5 := Step(s4, Resume(1, ContextIs(CONTEXT)));
    StepReachable(s4, Resume(1, ContextIs(CONTEXT)), OPTIONS, 0);
    var s6 := Step(s5, Resume(1, Granted));
    StepReachable(s5, Resume(1, Granted), OPTIONS, 0);
    var s7 := Step(s6, Resume(1, SignatureIs(false)));
    StepReachable(s6, Resume(1, SignatureIs(false)), OPTIONS, 0);
    assert Poisoned(s7);
  }

  // ----- Exactly when a stored row can still be closed

  ghost predicate CanStillClose(s: System) {
    exists actions, i, c, reason :: ClosesLater(s, actions, i, c, reason)
  }

  ghost predicate ClosesLater(s: System, actions: seq<Action>, i: nat, c: Certificate, reason: Reason) {
    |s.history| <= i < |Run(s, actions).history| && Run(s, actions).history[i] == Closed(c, reason)
  }

  lemma FreshTick(s: System) returns (t: nat)
    ensures t !in s.ticks
  {
    t := FreshNumber(s.ticks.Keys);
    assert t !in s.ticks.Keys;
  }

  lemma {:induction false} FreshNumber(taken: set<nat>) returns (t: nat)
    ensures forall x :: x in taken ==> x < t
    decreases |taken|
  {
    if taken == {} {
      t := 0;
    } else {
      var x :| x in taken;
      var rest := FreshNumber(taken - {x});
      t := if x < rest then rest else x + 1;
      assert forall y :: y in taken ==> y == x || y in taken - {x};
    }
  }

  /** From an idle worker the stored certificate can still be closed exactly when its row can be read back. */
  lemma ClosableIffReadable(s: System)
    requires Fenced(s) && IdleHolder(s) && s.workflow.Some?
    ensures CanStillClose(s) <==> Readable(s.workflow.value)
  {
    hide Run, Fenced;
    if !Readable(s.workflow.value) {
      forall actions, i, c, reason
        ensures !ClosesLater(s, actions, i, c, reason)
      {
        PoisonedForever(s, actions);
      }
    } else {
      ExpiryCloses(s);
    }
  }

  lemma RunThree(s: System, a: Action, b: Action, c: Action)
    ensures Run(s, [a, b, c]) == Step(Step(Step(s, a), b), c)
  {
    hide Step;
    assert [a, b, c][..2] == [a, b] && [a, b][..1] == [a] && [a][..0] == [];
    assert Run(s, []) == s && Run(s, [a]) == Step(s, a) && Run(s, [a, b]) == Step(Step(s, a), b);
  }

  lemma ExpiryCloses(s: System)
    requires s.workflow.Some? && Readable(s.workflow.value)
    ensures CanStillClose(s)
  {
    var t := FreshTick(s);
    var c := s.workflow.value.certificate;
    var wait: nat := (if c.expiresAt > s.now then c.expiresAt - s.now else 0)
      + (if s.job.nextRunAt > s.now then s.job.nextRunAt - s.now else 0);
    RunThree(s, Elapse(wait), Claim(t), Resume(t, ContextIs(CONTEXT)));
    hide Run, StartEvaluation;
    var s1 := Step(s, Elapse(wait));
    var s2 := Step(s1, Claim(t));
    assert s2.ticks[t] == AwaitContext(s.job.attempt + 1) && Owns(s2, s.job.attempt + 1);
    var s3 := Step(s2, Resume(t, ContextIs(CONTEXT)));
    StartKeepsHistory(Save(Log(s2, Closed(c, Expired(s2.now))), s.workflow.value.(state := EXPIRED)), t,
      s.job.attempt + 1, CONTEXT);
    assert s3.history == s.history + [Closed(c, Expired(s2.now))];
    assert ClosesLater(s, [Elapse(wait), Claim(t), Resume(t, ContextIs(CONTEXT))], |s.history|, c, Expired(s2.now));
  }

  lemma StartKeepsHistory(s: System, tick: nat, attempt: nat, context: Context)
    ensures StartEvaluation(s, tick, attempt, context).history == s.history
  {
  }
}
