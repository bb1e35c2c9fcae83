/**
 What a send says about the clock (packages/services/src/risk-worker.ts:139-157 and 232-318).

 A certificate counts as open until an event closes it.  Its expiry is compared with the clock only
 when a tick reads the stored row, and fixed when a tick builds it; nothing looks at it again before
 the wallet is asked to send.
 */
module RiskWorkerExpiry {
  import opened RiskWorker
  import opened RiskWorkerSafety
  import opened RiskWorkerRows
  import opened Wrappers

  /** The certificate a tick is on its way to sign or send. */
  function InHand(phase: Phase): Option<Certificate> {
    match phase
    case AwaitSigningContext(_, c) => Some(c)
    case AwaitSigningGrant(_, c) => Some(c)
    case AwaitSignature(_, c) => Some(c)
    case AwaitSubmitPolicy(_, w) => Some(w.certificate)
    case AwaitSubmitContext(_, w) => Some(w.certificate)
    case AwaitSendGrant(_, w) => Some(w.certificate)
    case AwaitSend(_, w) => Some(w.certificate)
    case _ => None
  }

  /** In this step the tick of the attempt reads the stored certificate c, or builds it, before its expiry. */
  ghost predicate TakesUp(s: System, action: Action, attempt: nat, c: Certificate) {
    && s.now < c.expiresAt
    && action.Resume? && action.tick in s.ticks && s.ticks[action.tick].attempt == attempt && Owns(s, attempt)
    && ((s.ticks[action.tick].AwaitContext? && s.workflow.Some? && s.workflow.value.certificate == c)
        || exists validUntil :: Builds(s, action, c, validUntil))
  }

  ghost predicate TakenUp(options: Options, now: int, actions: seq<Action>, attempt: nat, c: Certificate) {
    exists j :: 0 <= j < |actions| && TakesUp(Run(Init(options, now), actions[..j]), actions[j], attempt, c)
  }

  ghost predicate InHandFrom(s: System, taken: iset<(nat, Certificate)>) {
    forall t :: t in s.ticks && InHand(s.ticks[t]).Some? && Lasting(InHand(s.ticks[t]).value) ==>
      (s.ticks[t].attempt, InHand(s.ticks[t]).value) in taken
  }

  /** The certificate outlives its issue, so that its row can be read back. */
  predicate Lasting(c: Certificate) {
    c.issuedAt < c.expiresAt
  }

  lemma ContextTakesUp(s: System, tick: nat, context: Context, taken: iset<(nat, Certificate)>)
    requires tick in s.ticks && s.ticks[tick].AwaitContext? && Owns(s, s.ticks[tick].attempt)
    requires InHandFrom(s, taken)
    requires forall c :: TakesUp(s, Resume(tick, ContextIs(context)), s.ticks[tick].attempt, c) ==>
               (s.ticks[tick].attempt, c) in taken
    ensures InHandFrom(OnContext(s, tick, s.ticks[tick].attempt, context), taken)
  {
    if s.workflow.Some? && s.now < s.workflow.value.certificate.expiresAt {
      assert TakesUp(s, Resume(tick, ContextIs(context)), s.ticks[tick].attempt, s.workflow.value.certificate);
    }
  }

  lemma PolicyTakesUp(s: System, tick: nat, validUntil: int, taken: iset<(nat, Certificate)>)
    requires tick in s.ticks && s.ticks[tick].AwaitPolicy? && Owns(s, s.ticks[tick].attempt)
    requires InHandFrom(s, taken)
    requires forall c :: TakesUp(s, Resume(tick, PolicyIs(validUntil)), s.ticks[tick].attempt, c) ==>
               (s.ticks[tick].attempt, c) in taken
    ensures InHandFrom(OnAnswer(s, tick, s.ticks[tick], PolicyIs(validUntil)), taken)
  {
    var phase := s.ticks[tick];
    var c := NewCertificate(s, phase.context, phase.evaluation, validUntil);
    assert Builds(s, Resume(tick, PolicyIs(validUntil)), c, validUntil);
    if Lasting(c) {
      assert TakesUp(s, Resume(tick, PolicyIs(validUntil)), phase.attempt, c);
    }
  }

  lemma StepTakesUp(s: System, action: Action, taken: iset<(nat, Certificate)>)
    requires InHandFrom(s, taken)
    requires forall attempt: nat, c :: TakesUp(s, action, attempt, c) ==> (attempt, c) in taken
    ensures InHandFrom(Step(s, action), taken)
  {
    hide OnContext, NewCertificate, TakesUp;
    if action.Resume? && action.tick in s.ticks && Owns(s, s.ticks[action.tick].attempt) {
      var phase := s.ticks[action.tick];
      if phase.AwaitContext? && action.answer.ContextIs? {
        ContextTakesUp(s, action.tick, action.answer.context, taken);
      } else if phase.AwaitPolicy? && action.answer.PolicyIs? {
        PolicyTakesUp(s, action.tick, action.answer.validUntil, taken);
      }
    }
  }

  lemma TakenUpStays(options: Options, now: int, actions: seq<Action>, last: Action, attempt: nat, c: Certificate)
    requires TakenUp(options, now, actions, attempt, c)
    ensures TakenUp(options, now, actions + [last], attempt, c)
  {
    hide Run, TakesUp;
    var j :| 0 <= j < |actions| && TakesUp(Run(Init(options, now), actions[..j]), actions[j], attempt, c);
    assert (actions + [last])[..j] == actions[..j] && (actions + [last])[j] == actions[j];
  }

  lemma TakenUpByLast(options: Options, now: int, actions: seq<Action>, last: Action, attempt: nat, c: Certificate)
    requires TakesUp(Run(Init(options, now), actions), last, attempt, c)
    ensures TakenUp(options, now, actions + [last], attempt, c)
  {
    hide Run, TakesUp;
    assert (actions + [last])[..|actions|] == actions && (actions + [last])[|actions|] == last;
  }

  ghost function AllTakenUp(options: Options, now: int, actions: seq<Action>): iset<(nat, Certificate)> {
    iset attempt: nat, c: Certificate | TakenUp(options, now, actions, attempt, c) :: (attempt, c)
  }

  /** Every lasting certificate in hand was taken up, before its expiry, by the attempt that has it. */
  lemma {:induction false} RunTakesUp(options: Options, now: int, actions: seq<Action>)
    ensures InHandFrom(Run(Init(options, now), actions), AllTakenUp(options, now, actions))
    decreases |actions|
  {
    if actions != [] {
      var front, last := actions[..|actions| - 1], actions[|actions| - 1];
      assert actions == front + [last];
      RunTakesUp(options, now, front);
      forall attempt: nat, c | TakenUp(options, now, front, attempt, c)
        ensures TakenUp(options, now, actions, attempt, c)
      {
        TakenUpStays(options, now, front, last, attempt, c);
      }
      forall attempt: nat, c | TakesUp(Run(Init(options, now), front), last, attempt, c)
        ensures TakenUp(options, now, actions, attempt, c)
      {
        TakenUpByLast(options, now, front, last, attempt, c);
      }
      hide TakesUp, TakenUp, Init, Step;
      StepTakesUp(Run(Init(options, now), front), last, AllTakenUp(options, now, actions));
    }
  }

  /** Sends c, which has expired by the clock. */
  ghost predicate SendsExpired(s: System, tick: nat) {
    && tick in s.ticks && s.ticks[tick].AwaitSendGrant? && Owns(s, s.ticks[tick].attempt)
    && s.ticks[tick].workflow.certificate.expiresAt <= s.now
    && Step(s, Resume(tick, Granted)).history == s.history + [Sent(s.ticks[tick].workflow.certificate)]
  }

  /** Whatever is about to be sent had not expired when the sending attempt read or built it, if it lasts at all. */
  lemma SentWasUnexpired(options: Options, now: int, actions: seq<Action>, tick: nat)
    requires var s := Run(Init(options, now), actions);
             tick in s.ticks && s.ticks[tick].AwaitSendGrant? && Lasting(s.ticks[tick].workflow.certificate)
    ensures var phase := Run(Init(options, now), actions).ticks[tick];
            TakenUp(options, now, actions, phase.attempt, phase.workflow.certificate)
  {
    hide Run, Init, TakenUp;
    RunTakesUp(options, now, actions);
    var phase := Run(Init(options, now), actions).ticks[tick];
    assert (phase.attempt, phase.workflow.certificate) in AllTakenUp(options, now, actions);
  }

  function FirstTickAtSubmission(): System {
    var c := Certificate(AUTHORITY, 1, 0, 300, "a");
    var w := Workflow(c, SIGNED, None, None);
    System(0, OPTIONS, Job(RUNNING, 1, 120), Some(w), map[1 := AwaitSubmitContext(1, w)],
      [Signed(c, true), Persisted(c)])
  }

  lemma FirstTickSubmits()
    ensures Reachable(FirstTickAtSubmission(), OPTIONS, 0)
  {
    hide Reachable;
    var s0 := FirstTickAtGrant();
    FirstTickReaches();
    var s1 := Step(s0, Resume(1, Granted));
    StepReachable(s0, Resume(1, Granted), OPTIONS, 0);
    var s2 := Step(s1, Resume(1, SignatureIs(true)));
    StepReachable(s1, Resume(1, SignatureIs(true)), OPTIONS, 0);
    var s3 := Step(s2, Resume(1, PolicyIs(1000)));
    StepReachable(s2, Resume(1, PolicyIs(1000)), OPTIONS, 0);
    assert s3 == FirstTickAtSubmission();
  }

  /** By the time it is sent it may have: a tick suspended after reading it does not compare again. */
  lemma ExpiredCanBeSent()
    ensures exists s, tick :: Reachable(s, OPTIONS, 0) && SendsExpired(s, tick)
  {
    hide Reachable;
    var s0 := FirstTickAtSubmission();
    FirstTickSubmits();
    var s1 := Step(s0, Elapse(1000));
    StepReachable(s0, Elapse(1000), OPTIONS, 0);
    var s2 := Step(s1, Resume(1, ContextIs(CONTEXT)));
    StepReachable(s1, Resume(1, ContextIs(CONTEXT)), OPTIONS, 0);
    assert SendsExpired(s2, 1);
  }
}
