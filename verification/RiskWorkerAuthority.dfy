/**
 Under whose authority the worker signs and sends (packages/services/src/risk-worker.ts:263-318).

 The registry's answer is read again before each signature and each send.  Over every run, the last
 answer a tick was given before either one authorizes exactly the certificate's authority.
 */
module RiskWorkerAuthority {
  import opened RiskWorker
  import opened RiskWorkerSafety
  import opened Wrappers

  ghost function StateAt(options: Options, now: int, actions: seq<Action>, k: nat): System
    requires k <= |actions|
  {
    Run(Init(options, now), actions[..k])
  }

  /** The registry authorizes the watchtower, under the authority the certificate names. */
  ghost predicate Authorizes(context: Context, c: Certificate) {
    context.authorized && context.authority == c.authority
  }

  /** The step gives a registry answer to the tick of this attempt. */
  ghost predicate TakesContext(s: System, action: Action, attempt: nat) {
    && action.Resume? && action.answer.ContextIs?
    && action.tick in s.ticks && s.ticks[action.tick].attempt == attempt
    && (s.ticks[action.tick].AwaitContext? || s.ticks[action.tick].AwaitSigningContext?
        || s.ticks[action.tick].AwaitSubmitContext?)
  }

  /** The answer authorizes the certificate the tick holds for signing. */
  ghost predicate ApprovesSigning(s: System, action: Action, attempt: nat, c: Certificate) {
    && TakesContext(s, action, attempt) && Owns(s, attempt)
    && s.ticks[action.tick] == AwaitSigningContext(attempt, c) && Authorizes(action.answer.context, c)
  }

  /** The answer authorizes the certificate the tick holds for sending, which is the stored one. */
  ghost predicate ApprovesSending(s: System, action: Action, attempt: nat, c: Certificate) {
    && TakesContext(s, action, attempt) && Owns(s, attempt)
    && s.ticks[action.tick].AwaitSubmitContext? && s.ticks[action.tick].workflow.certificate == c
    && s.workflow == Some(s.ticks[action.tick].workflow) && Authorizes(action.answer.context, c)
  }

  // ----- One step

  /** A lease holder that is about to send goes on exactly when the registry still authorizes the certificate. */
  lemma SendGrantIff(s: System, tick: nat, context: Context)
    requires tick in s.ticks && s.ticks[tick].AwaitSubmitContext? && Owns(s, s.ticks[tick].attempt)
    ensures var w, after := s.ticks[tick].workflow, Step(s, Resume(tick, ContextIs(context)));
            && (tick in after.ticks <==> Authorizes(context, w.certificate))
            && (tick in after.ticks ==> after.ticks[tick] == AwaitSendGrant(s.ticks[tick].attempt, w))
            && after.history == s.history && after.workflow == s.workflow
  {
  }

  /** So does one that is about to sign. */
  lemma SigningGrantIff(s: System, tick: nat, context: Context)
    requires tick in s.ticks && s.ticks[tick].AwaitSigningContext? && Owns(s, s.ticks[tick].attempt)
    ensures var c, after := s.ticks[tick].certificate, Step(s, Resume(tick, ContextIs(context)));
            && (tick in after.ticks <==> Authorizes(context, c))
            && (tick in after.ticks ==> after.ticks[tick] == AwaitSigningGrant(s.ticks[tick].attempt, c))
            && after.history == s.history && after.workflow == s.workflow
  {
  }

  /** A tick is before a grant because it was, with no registry answer since, or because the step approved it. */
  ghost predicate GrantIsFounded(s: System, action: Action, t: nat, phase: Phase) {
    || (t in s.ticks && s.ticks[t] == phase && !TakesContext(s, action, phase.attempt))
    || (phase.AwaitSigningGrant? && ApprovesSigning(s, action, phase.attempt, phase.certificate))
    || (phase.AwaitSendGrant? && ApprovesSending(s, action, phase.attempt, phase.workflow.certificate))
  }

  lemma StepIsFounded(s: System, action: Action, t: nat)
    requires Inv(s) && t in Step(s, action).ticks
    requires Step(s, action).ticks[t].AwaitSigningGrant? || Step(s, action).ticks[t].AwaitSendGrant?
    ensures GrantIsFounded(s, action, t, Step(s, action).ticks[t])
  {
    if action.Resume? && action.tick == t && t in s.ticks {
      ResumedIsFounded(s, t, action.answer);
    } else {
      OthersStay(s, action, t);
    }
  }

  lemma ResumedIsFounded(s: System, t: nat, answer: Answer)
    requires Inv(s) && t in s.ticks && t in OnAnswer(s, t, s.ticks[t], answer).ticks
    requires var after := OnAnswer(s, t, s.ticks[t], answer).ticks[t]; after.AwaitSigningGrant? || after.AwaitSendGrant?
    ensures GrantIsFounded(s, Resume(t, answer), t, OnAnswer(s, t, s.ticks[t], answer).ticks[t])
  {
    hide StoreAgrees, Lawful, OnContext, NewCertificate;
    var phase := s.ticks[t];
    if Owns(s, phase.attempt) {
      assert HolderView(s.workflow, s.history, phase);
      if phase.AwaitContext? && answer.ContextIs? {
        NoGrantOnContext(s, t, phase.attempt, answer.context);
      }
    }
  }

  /** A step leaves the other ticks as they are, and no registry answer of theirs reaches this one. */
  lemma OthersStay(s: System, action: Action, t: nat)
    requires Fenced(s) && t in Step(s, action).ticks && !(action.Resume? && action.tick == t && t in s.ticks)
    requires Step(s, action).ticks[t].AwaitSigningGrant? || Step(s, action).ticks[t].AwaitSendGrant?
    ensures GrantIsFounded(s, action, t, Step(s, action).ticks[t])
  {
    hide NewCertificate, OnContext;
    if action.Resume? && action.tick in s.ticks && s.ticks[action.tick].AwaitContext? && action.answer.ContextIs? {
      NoGrantOnContext(s, action.tick, s.ticks[action.tick].attempt, action.answer.context);
    }
  }

  lemma NoGrantOnContext(s: System, tick: nat, attempt: nat, context: Context)
    ensures var after := OnContext(s, tick, attempt, context);
            && (forall t :: t in after.ticks && t != tick ==> t in s.ticks && after.ticks[t] == s.ticks[t])
            && (tick in after.ticks ==> !after.ticks[tick].AwaitSigningGrant? && !after.ticks[tick].AwaitSendGrant?)
  {
  }

  // ----- Over runs

  /** Step k gave the attempt its last registry answer before step j. */
  ghost predicate LastContext(options: Options, now: int, actions: seq<Action>, attempt: nat, k: nat, j: nat) {
    && k < j <= |actions| && TakesContext(StateAt(options, now, actions, k), actions[k], attempt)
    && forall m :: k < m < j ==> !TakesContext(StateAt(options, now, actions, m), actions[m], attempt)
  }

  /** The last registry answer before step j authorized what the phase is about to have granted. */
  ghost predicate Founded(options: Options, now: int, actions: seq<Action>, phase: Phase, j: nat) {
    exists k: nat :: LastContext(options, now, actions, phase.attempt, k, j) && Founds(options, now, actions, phase, k)
  }

  ghost predicate Founds(options: Options, now: int, actions: seq<Action>, phase: Phase, k: nat) {
    && k < |actions|
    && (phase.AwaitSigningGrant? ==>
          ApprovesSigning(StateAt(options, now, actions, k), actions[k], phase.attempt, phase.certificate))
    && (phase.AwaitSendGrant? ==>
          ApprovesSending(StateAt(options, now, actions, k), actions[k], phase.attempt, phase.workflow.certificate))
  }

  lemma SameStates(options: Options, now: int, actions: seq<Action>, last: Action, k: nat)
    requires k <= |actions|
    ensures StateAt(options, now, actions + [last], k) == StateAt(options, now, actions, k)
    ensures k < |actions| ==> (actions + [last])[k] == actions[k]
    ensures StateAt(options, now, actions + [last], |actions| + 1)
      == Step(StateAt(options, now, actions, |actions|), last)
  {
    hide Step, Init;
    var all := actions + [last];
    assert all[..k] == actions[..k];
    assert all[..|actions| + 1] == all && all[..|all| - 1] == actions && actions[..|actions|] == actions;
  }

  lemma FoundedStays(options: Options, now: int, actions: seq<Action>, last: Action, phase: Phase, j: nat)
    requires j <= |actions| && Founded(options, now, actions, phase, j)
    ensures Founded(options, now, actions + [last], phase, j)
  {
    hide StateAt, TakesContext, ApprovesSigning, ApprovesSending;
    var k: nat :| LastContext(options, now, actions, phase.attempt, k, j) && Founds(options, now, actions, phase, k);
    forall m: nat | m < j
      ensures StateAt(options, now, actions + [last], m) == StateAt(options, now, actions, m)
      ensures (actions + [last])[m] == actions[m]
    {
      SameStates(options, now, actions, last, m);
    }
    assert LastContext(options, now, actions + [last], phase.attempt, k, j);
    assert Founds(options, now, actions + [last], phase, k);
  }

  lemma FoundedLonger(options: Options, now: int, actions: seq<Action>, last: Action, phase: Phase)
    requires Founded(options, now, actions, phase, |actions|)
    requires !TakesContext(StateAt(options, now, actions, |actions|), last, phase.attempt)
    ensures Founded(options, now, actions + [last], phase, |actions| + 1)
  {
    hide StateAt, TakesContext, ApprovesSigning, ApprovesSending;
    var n := |actions|;
    FoundedStays(options, now, actions, last, phase, n);
    var k: nat :| LastContext(options, now, actions + [last], phase.attempt, k, n)
      && Founds(options, now, actions + [last], phase, k);
    SameStates(options, now, actions, last, n);
    assert LastContext(options, now, actions + [last], phase.attempt, k, n + 1);
  }

  lemma FoundedByLast(options: Options, now: int, actions: seq<Action>, last: Action, phase: Phase)
    requires var s := StateAt(options, now, actions, |actions|);
             || (phase.AwaitSigningGrant? && ApprovesSigning(s, last, phase.attempt, phase.certificate))
             || (phase.AwaitSendGrant? && ApprovesSending(s, last, phase.attempt, phase.workflow.certificate))
    ensures Founded(options, now, actions + [last], phase, |actions| + 1)
  {
    hide StateAt, TakesContext;
    var n := |actions|;
    SameStates(options, now, actions, last, n);
    assert LastContext(options, now, actions + [last], phase.attempt, n, n + 1);
    assert Founds(options, now, actions + [last], phase, n);
  }

  /** Whenever a tick is before a grant, its last registry answer authorized what is granted. */
  lemma {:induction false} GrantsAreFounded(options: Options, now: int, actions: seq<Action>, t: nat)
    requires var s := StateAt(options, now, actions, |actions|);
             t in s.ticks && (s.ticks[t].AwaitSigningGrant? || s.ticks[t].AwaitSendGrant?)
    ensures Founded(options, now, actions, StateAt(options, now, actions, |actions|).ticks[t], |actions|)
    decreases |actions|, 0
  {
    if actions != [] {
      hide Founded, GrantIsFounded, Inv, Step;
      var front, last := actions[..|actions| - 1], actions[|actions| - 1];
      assert actions == front + [last] && front[..|front|] == front;
      SameStates(options, now, front, last, |front|);
      var s := StateAt(options, now, front, |front|);
      RunKeepsInv(options, now, front);
      StepIsFounded(s, last, t);
      FoundedStep(options, now, front, last, t);
    }
  }

  lemma {:induction false} FoundedStep(options: Options, now: int, actions: seq<Action>, last: Action, t: nat)
    requires var s := StateAt(options, now, actions, |actions|);
             && t in Step(s, last).ticks && GrantIsFounded(s, last, t, Step(s, last).ticks[t])
             && (Step(s, last).ticks[t].AwaitSigningGrant? || Step(s, last).ticks[t].AwaitSendGrant?)
    ensures Founded(options, now, actions + [last],
              Step(StateAt(options, now, actions, |actions|), last).ticks[t], |actions| + 1)
    decreases |actions|, 1
  {
    hide StateAt, Founded, TakesContext, ApprovesSigning, ApprovesSending, Step;
    var s := StateAt(options, now, actions, |actions|);
    var phase := Step(s, last).ticks[t];
    if t in s.ticks && s.ticks[t] == phase && !TakesContext(s, last, phase.attempt) {
      GrantsAreFounded(options, now, actions, t);
      FoundedLonger(options, now, actions, last, phase);
    } else {
      FoundedByLast(options, now, actions, last, phase);
    }
  }

  // ----- Every signature and every send

  /** Step j appends event number i by granting the phase in which the tick was suspended. */
  ghost predicate GrantedAt(options: Options, now: int, actions: seq<Action>, i: nat, phase: Phase, j: nat) {
    && j < |actions| && actions[j].Resume? && actions[j].answer.Granted?
    && var s := StateAt(options, now, actions, j);
    && actions[j].tick in s.ticks && s.ticks[actions[j].tick] == phase && |s.history| == i
  }

  /** Event i was granted to a tick whose last registry answer before that authorized it. */
  ghost predicate IsAuthorized(options: Options, now: int, actions: seq<Action>, i: nat, phase: Phase) {
    exists j: nat :: GrantedAt(options, now, actions, i, phase, j) && Founded(options, now, actions, phase, j)
  }

  /** The phase in which the event's certificate is granted. */
  ghost predicate Grants(phase: Phase, e: Event) {
    || (phase.AwaitSigningGrant? && e.Signed? && e.certificate == phase.certificate)
    || (phase.AwaitSendGrant? && e == Sent(phase.workflow.certificate))
  }

  /** A step appends at most one event, and a signature or a send only by granting its certificate. */
  lemma StepLogs(s: System, action: Action)
    ensures var h, h' := s.history, Step(s, action).history;
            && h <= h' && |h'| <= |h| + 1
            && (|h'| == |h| + 1 && (h'[|h|].Signed? || h'[|h|].Sent?) ==>
                  && action.Resume? && action.answer.Granted? && action.tick in s.ticks
                  && Grants(s.ticks[action.tick], h'[|h|]))
  {
    hide NewCertificate, Owns;
  }

  lemma AuthorizedStays(options: Options, now: int, actions: seq<Action>, last: Action, i: nat, phase: Phase)
    requires IsAuthorized(options, now, actions, i, phase)
    ensures IsAuthorized(options, now, actions + [last], i, phase)
  {
    hide StateAt, Founded;
    var j: nat :| GrantedAt(options, now, actions, i, phase, j) && Founded(options, now, actions, phase, j);
    SameStates(options, now, actions, last, j);
    FoundedStays(options, now, actions, last, phase, j);
    assert GrantedAt(options, now, actions + [last], i, phase, j);
  }

  lemma AuthorizedByLast(options: Options, now: int, actions: seq<Action>, last: Action, phase: Phase)
    requires var s := StateAt(options, now, actions, |actions|);
             && last.Resume? && last.answer.Granted? && last.tick in s.ticks && s.ticks[last.tick] == phase
             && (phase.AwaitSigningGrant? || phase.AwaitSendGrant?)
    ensures IsAuthorized(options, now, actions + [last], |StateAt(options, now, actions, |actions|).history|, phase)
  {
    hide StateAt, Founded;
    var n := |actions|;
    GrantsAreFounded(options, now, actions, last.tick);
    FoundedStays(options, now, actions, last, phase, n);
    SameStates(options, now, actions, last, n);
    assert GrantedAt(options, now, actions + [last], |StateAt(options, now, actions, n).history|, phase, n);
  }

  /** Event i of the run was granted to a tick whose last registry answer authorized the event's certificate. */
  ghost predicate IsUnderAuthority(options: Options, now: int, actions: seq<Action>, i: nat) {
    && i < |StateAt(options, now, actions, |actions|).history|
    && exists phase ::
         && IsAuthorized(options, now, actions, i, phase)
         && Grants(phase, StateAt(options, now, actions, |actions|).history[i])
  }

  ghost predicate IsGranted(e: Event) {
    e.Signed? || e.Sent?
  }

  lemma OldGrant(options: Options, now: int, actions: seq<Action>, last: Action, i: nat)
    requires IsUnderAuthority(options, now, actions, i)
    ensures IsUnderAuthority(options, now, actions + [last], i)
  {
    hide IsAuthorized, Step, Grants, StateAt;
    SameStates(options, now, actions, last, |actions|);
    StepLogs(StateAt(options, now, actions, |actions|), last);
    var phase :| IsAuthorized(options, now, actions, i, phase)
      && Grants(phase, StateAt(options, now, actions, |actions|).history[i]);
    AuthorizedStays(options, now, actions, last, i, phase);
  }

  lemma NewGrant(options: Options, now: int, actions: seq<Action>, last: Action)
    requires var s := StateAt(options, now, actions, |actions|);
             |Step(s, last).history| == |s.history| + 1 && IsGranted(Step(s, last).history[|s.history|])
    ensures IsUnderAuthority(options, now, actions + [last], |StateAt(options, now, actions, |actions|).history|)
  {
    hide IsAuthorized, Step, Grants, StateAt;
    var s := StateAt(options, now, actions, |actions|);
    SameStates(options, now, actions, last, |actions|);
    StepLogs(s, last);
    var phase := s.ticks[last.tick];
    GrantPhase(phase, Step(s, last).history[|s.history|]);
    AuthorizedByLast(options, now, actions, last, phase);
  }

  lemma NothingHappened(options: Options, now: int)
    ensures StateAt(options, now, [], 0).history == []
  {
  }

  lemma GrantPhase(phase: Phase, e: Event)
    requires Grants(phase, e)
    ensures phase.AwaitSigningGrant? || phase.AwaitSendGrant?
  {
  }

  /**
   For every certificate a run signs or sends, the last registry answer its tick was given before the grant
   authorizes exactly that certificate; for a send, it was given after the stored row had been read or written.
   */
  lemma {:induction false} SignedAndSentUnderAuthority(options: Options, now: int, actions: seq<Action>, i: nat)
    requires i < |StateAt(options, now, actions, |actions|).history|
    requires IsGranted(StateAt(options, now, actions, |actions|).history[i])
    ensures IsUnderAuthority(options, now, actions, i)
    decreases |actions|
  {
    hide IsUnderAuthority, Step, IsGranted, Run, Init, StateAt;
    if actions == [] {
      NothingHappened(options, now);
      assert false;
    } else {
      var front, last := actions[..|actions| - 1], actions[|actions| - 1];
      assert actions == front + [last];
      SameStates(options, now, front, last, |front|);
      var s := StateAt(options, now, front, |front|);
      StepLogs(s, last);
      if i < |s.history| {
        SignedAndSentUnderAuthority(options, now, front, i);
        OldGrant(options, now, front, last, i);
      } else {
        NewGrant(options, now, front, last);
      }
    }
  }
}
