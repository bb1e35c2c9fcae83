/**
 What the outbox guarantees over whole runs, and the one guarantee it does not give.
 */
module RiskWorkerSafety {
  import opened RiskWorker
  import opened Wrappers

  ghost predicate Reachable(s: System, options: Options, now: int) {
    exists actions :: s == Run(Init(options, now), actions)
  }

  lemma InitReachable(options: Options, now: int)
    ensures Reachable(Init(options, now), options, now)
  {
    assert Init(options, now) == Run(Init(options, now), []);
  }

  lemma StepReachable(s: System, action: Action, options: Options, now: int)
    requires Reachable(s, options, now)
    ensures Reachable(Step(s, action), options, now)
  {
    hide Step, Init;
    var actions :| s == Run(Init(options, now), actions);
    assert (actions + [action])[..|actions|] == actions;
    assert Step(s, action) == Run(Init(options, now), actions + [action]);
  }

  lemma ReachableIsLawful(s: System, options: Options, now: int)
    requires Reachable(s, options, now)
    ensures Inv(s) && Lawful(s.history)
  {
    hide Run, Init, Lawful;
    var actions :| s == Run(Init(options, now), actions);
    RunKeepsInv(options, now, actions);
  }

  lemma {:induction false} LawfulAt(h: seq<Event>, i: nat)
    requires Lawful(h) && i < |h|
    ensures Lawful(h[..i]) && LawfulEvent(h[..i], h[i])
    decreases |h|
  {
    if i < |h| - 1 {
      var front := h[..|h| - 1];
      assert front[..i] == h[..i];
      LawfulAt(front, i);
    }
  }

  /** c is the persisted certificate and nothing has closed it. */
  ghost predicate Open(h: seq<Event>, c: Certificate) {
    LastPersisted(h) == Some(c) && !ClosedSince(h)
  }

  /** A finalization is of a transaction that was sent and submitted for the certificate. */
  ghost predicate WasSubmitted(before: seq<Event>, c: Certificate, reason: Reason) {
    reason.Finalized? ==> reason.transactionHash.Some? && Submitted(c, reason.transactionHash.value) in before
  }

  ghost predicate ClosedBetween(h: seq<Event>, c: Certificate, start: nat, end: nat) {
    exists k, reason :: start <= k < end && k < |h| && h[k] == Closed(c, reason)
                        && Justified(c, reason) && WasSubmitted(h[..k], c, reason)
  }

  /** An open certificate stays the persisted one until an event closes it for a justified reason. */
  lemma {:induction false} OpenUntilClosed(h: seq<Event>, c: Certificate, i: nat, j: nat)
    requires Lawful(h) && i <= j <= |h| && Open(h[..i], c)
    ensures Open(h[..j], c) || ClosedBetween(h, c, i, j)
    decreases j
  {
    if i < j {
      hide Lawful, LastPersisted, ClosedSince, Justified;
      OpenUntilClosed(h, c, i, j - 1);
      var e := h[j - 1];
      LawfulAt(h, j - 1);
      assert h[..j] == h[..j - 1] + [e];
      AppendEvent(h[..j - 1], e);
      if Open(h[..j - 1], c) && e.Closed? {
        assert e == Closed(c, e.reason);
      }
    }
  }

  /**
   Every certificate handed to the wallet for sending is the persisted one at that moment, and no event has
   closed it.  It may have expired by the clock: `RiskWorkerExpiry` says when the clock was last compared.
   */
  lemma SentWasPersisted(s: System, options: Options, now: int, i: nat)
    requires Reachable(s, options, now) && i < |s.history| && s.history[i].Sent?
    ensures Open(s.history[..i], s.history[i].certificate)
  {
    ReachableIsLawful(s, options, now);
    LawfulAt(s.history, i);
  }

  /** Two different certificates are sent only if the first was expired, revoked, superseded or finalized in between. */
  lemma DifferentSendsAreSeparated(s: System, options: Options, now: int, i: nat, j: nat)
    requires Reachable(s, options, now) && i < j < |s.history| && s.history[i].Sent? && s.history[j].Sent?
    requires s.history[i].certificate != s.history[j].certificate
    ensures ClosedBetween(s.history, s.history[i].certificate, i, j)
  {
    hide Lawful, LastPersisted, ClosedSince;
    ReachableIsLawful(s, options, now);
    SentWasPersisted(s, options, now, i);
    SentWasPersisted(s, options, now, j);
    OpenUntilClosed(s.history, s.history[i].certificate, i, j);
  }

  /** A persisted certificate is replaced, or a new one signed under the lease, only after it was closed. */
  lemma ReplacedOnlyAfterClosing(s: System, options: Options, now: int, i: nat, j: nat)
    requires Reachable(s, options, now) && i < j < |s.history| && s.history[i].Persisted?
    requires s.history[j].Persisted? || s.history[j] == Signed(s.history[j].certificate, true)
    ensures ClosedBetween(s.history, s.history[i].certificate, i + 1, j)
  {
    var h, c := s.history, s.history[i].certificate;
    ReachableIsLawful(s, options, now);
    LawfulAt(h, j);
    assert h[..i + 1] == h[..i] + [h[i]];
    AppendEvent(h[..i], h[i]);
    OpenUntilClosed(h, c, i + 1, j);
  }

  /** A tick that lost its lease never writes the stored workflow, sends, or closes anything. */
  lemma FencedTickOnlySigns(s: System, tick: nat, answer: Answer)
    requires tick in s.ticks && !Owns(s, s.ticks[tick].attempt)
    ensures var after := Step(s, Resume(tick, answer));
            && after.workflow == s.workflow && after.job == s.job
            && (after.history == s.history
                || exists c :: after.history == s.history + [Signed(c, false)])
  {
  }

  // ----- The guarantee that is missing

  const AUTHORITY := Authority(1, 1, "registry", "watchtower", 1)
  const CONTEXT := Context(AUTHORITY, 1, true)
  const OPTIONS := Options(300, 60)

  /** Two different certificates of one nonce are signed while the persisted one of them is open. */
  ghost predicate DoublySigned(s: System) {
    exists c: Certificate, c': Certificate ::
      && c != c' && c.nonce == c'.nonce && Open(s.history, c)
      && Signed(c, true) in s.history && Signed(c', false) in s.history
  }

  function FirstTickAtGrant(): System {
    System(0, OPTIONS, Job(RUNNING, 1, 120), None,
           map[1 := AwaitSigningGrant(1, Certificate(AUTHORITY, 1, 0, 300, "a"))], [])
  }

  function SecondTickAtGrant(): System {
    System(120, OPTIONS, Job(RUNNING, 2, 240), None,
           map[1 := AwaitSigningGrant(1, Certificate(AUTHORITY, 1, 0, 300, "a")),
               2 := AwaitSigningGrant(2, Certificate(AUTHORITY, 1, 120, 420, "b"))], [])
  }

  lemma FirstTickReaches()
    ensures Reachable(FirstTickAtGrant(), OPTIONS, 0)
  {
    hide Reachable;
    var s0 := Init(OPTIONS, 0);
    InitReachable(OPTIONS, 0);
    var s1 := Step(s0, Claim(1));
    StepReachable(s0, Claim(1), OPTIONS, 0);
    var s2 := Step(s1, Resume(1, ContextIs(CONTEXT)));
    StepReachable(s1, Resume(1, ContextIs(CONTEXT)), OPTIONS, 0);
    var s3 := Step(s2, Resume(1, EvaluationIs(Some("a"))));
    StepReachable(s2, Resume(1, EvaluationIs(Some("a"))), OPTIONS, 0);
    var s4 := Step(s3, Resume(1, PolicyIs(1000)));
    StepReachable(s3, Resume(1, PolicyIs(1000)), OPTIONS, 0);
    var s5 := Step(s4, Resume(1, ContextIs(CONTEXT)));
    StepReachable(s4, Resume(1, ContextIs(CONTEXT)), OPTIONS, 0);
    assert s5 == FirstTickAtGrant();
  }

  function SecondTickAtEvaluation(): System {
    System(120, OPTIONS, Job(RUNNING, 2, 240), None,
           map[1 := AwaitSigningGrant(1, Certificate(AUTHORITY, 1, 0, 300, "a")), 2 := AwaitEvaluation(2, CONTEXT)], [])
  }

  lemma SecondTickStarts()
    ensures Reachable(SecondTickAtEvaluation(), OPTIONS, 0)
  {
    hide Reachable;
    var s0 := FirstTickAtGrant();
    FirstTickReaches();
    var s1 := Step(s0, Elapse(120));
    StepReachable(s0, Elapse(120), OPTIONS, 0);
    var s2 := Step(s1, Claim(2));
    StepReachable(s1, Claim(2), OPTIONS, 0);
    var s3 := Step(s2, Resume(2, ContextIs(CONTEXT)));
    StepReachable(s2, Resume(2, ContextIs(CONTEXT)), OPTIONS, 0);
    assert s3 == SecondTickAtEvaluation();
  }

  lemma SecondTickReaches()
    ensures Reachable(SecondTickAtGrant(), OPTIONS, 0)
  {
    hide Reachable;
    var s3 := SecondTickAtEvaluation();
    SecondTickStarts();
    var s4 := Step(s3, Resume(2, EvaluationIs(Some("b"))));
    StepReachable(s3, Resume(2, EvaluationIs(Some("b"))), OPTIONS, 0);
    var s5 := Step(s4, Resume(2, PolicyIs(1000)));
    StepReachable(s4, Resume(2, PolicyIs(1000)), OPTIONS, 0);
    var s6 := Step(s5, Resume(2, ContextIs(CONTEXT)));
    StepReachable(s5, Resume(2, ContextIs(CONTEXT)), OPTIONS, 0);
    assert s6 == SecondTickAtGrant();
  }

  lemma StaleSignatureIsDouble(s: System, a: Certificate, b: Certificate)
    requires s.history == [Signed(b, true)] + [Persisted(b)] + [Signed(a, false)] && a != b && a.nonce == b.nonce
    ensures DoublySigned(s)
  {
    AppendEvent([], Signed(b, true));
    AppendEvent([Signed(b, true)], Persisted(b));
    AppendEvent([Signed(b, true)] + [Persisted(b)], Signed(a, false));
    assert s.history[0] == Signed(b, true) && s.history[2] == Signed(a, false);
  }

  /**
   The signing grant is the one await without a lease check, so a tick that was suspended there past
   its lease still signs, although another tick has meanwhile persisted a certificate of the same nonce.
   */
  lemma StaleTickCanSign()
    ensures exists s :: Reachable(s, OPTIONS, 0) && DoublySigned(s)
  {
    hide Reachable, DoublySigned;
    var s0 := SecondTickAtGrant();
    SecondTickReaches();
    var s1 := Step(s0, Resume(2, Granted));
    StepReachable(s0, Resume(2, Granted), OPTIONS, 0);
    var s2 := Step(s1, Resume(2, SignatureIs(true)));
    StepReachable(s1, Resume(2, SignatureIs(true)), OPTIONS, 0);
    var s3 := Step(s2, Resume(1, Granted));
    StepReachable(s2, Resume(1, Granted), OPTIONS, 0);
    var a, b := Certificate(AUTHORITY, 1, 0, 300, "a"), Certificate(AUTHORITY, 1, 120, 420, "b");
    assert a.issuedAt != b.issuedAt;
    StaleSignatureIsDouble(s3, a, b);
  }

  // ----- Signatures over an open certificate

  /** The signature at i was made although the persisted certificate was still open. */
  ghost predicate SignedOverOpen(h: seq<Event>, i: nat) {
    i < |h| && h[i].Signed? && !Replaceable(h[..i])
  }

  /** At every moment of every run the stored row tells whether its certificate is open. */
  lemma RowTellsOpenness(s: System, options: Options, now: int)
    requires Reachable(s, options, now) && s.workflow.Some?
    ensures Open(s.history, s.workflow.value.certificate) <==> RowIsOpen(s.workflow.value)
  {
    ReachableIsLawful(s, options, now);
  }

  /**
   A granted tick signs over an open certificate exactly when the row stored at that moment is open,
   and only after it has lost its lease.
   */
  lemma SignsOverOpenIff(s: System, options: Options, now: int, tick: nat)
    requires Reachable(s, options, now) && tick in s.ticks && s.ticks[tick].AwaitSigningGrant?
    ensures SignedOverOpen(Step(s, Resume(tick, Granted)).history, |s.history|)
       <==> s.workflow.Some? && RowIsOpen(s.workflow.value)
    ensures s.workflow.Some? && RowIsOpen(s.workflow.value) ==> !Owns(s, s.ticks[tick].attempt)
  {
    hide Lawful, LastPersisted, ClosedSince, Reachable, RowIsOpen;
    ReachableIsLawful(s, options, now);
    var after := Step(s, Resume(tick, Granted));
    assert after.history == s.history + [Signed(s.ticks[tick].certificate, Owns(s, s.ticks[tick].attempt))];
    assert after.history[..|s.history|] == s.history;
    if Owns(s, s.ticks[tick].attempt) {
      assert HolderView(s.workflow, s.history, s.ticks[tick]);
    }
  }

  /** So every signature of a run is over a closed certificate exactly when every signature without the lease is. */
  lemma SignaturesAreOrderlyIff(s: System, options: Options, now: int)
    requires Reachable(s, options, now)
    ensures (forall i: nat :: !SignedOverOpen(s.history, i))
       <==> (forall i: nat :: i < |s.history| && s.history[i].Signed? && !s.history[i].leaseHeld ==>
         !SignedOverOpen(s.history, i))
  {
    hide Lawful, LastPersisted, ClosedSince, Reachable;
    ReachableIsLawful(s, options, now);
    forall i: nat | i < |s.history| && s.history[i].Signed? && s.history[i].leaseHeld
      ensures !SignedOverOpen(s.history, i)
    {
      LawfulAt(s.history, i);
    }
  }
}
