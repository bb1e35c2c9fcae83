/**
 What a tick does to the stored row and where it goes next, said by outcome
 (packages/services/src/risk-worker.ts:110-338), and what the lease keeps apart
 (packages/services/src/db/repository.ts:1389-1460).
 */
module RiskWorkerTicks {
  import opened RiskWorker
  import opened RiskWorkerAuthority
  import opened Wrappers

  /** A row that can be read back, has not expired by the clock and is in no final state. */
  ghost predicate IsLive(row: Workflow, now: int) {
    row.certificate.issuedAt < row.certificate.expiresAt && now < row.certificate.expiresAt
    && row.state != REVOKED && row.state != EXPIRED && row.state != FAILED
  }

  /** The tick holds the lease and is suspended in this phase. */
  ghost predicate Holds(s: System, tick: nat, phase: Phase) {
    tick in s.ticks && s.ticks[tick] == phase && s.job.status == RUNNING && s.job.attempt == phase.attempt
  }

  /** The tick is over and its lease given back. */
  ghost predicate HasEnded(after: System, tick: nat, now: int, attempt: nat) {
    tick !in after.ticks && after.job == Job(QUEUED, attempt, now + 10)
  }

  // ----- Reading the stored row

  /** There is a stored row that stands in the way of a new certificate. */
  ghost predicate RowStands(row: Option<Workflow>, now: int, context: Context) {
    row.Some? && (row.value.certificate.issuedAt >= row.value.certificate.expiresAt
                  || (IsLive(row.value, now)
                      && (!Authorizes(context, row.value.certificate) || row.value.transactionHash.Some?
                          || row.value.certificate.nonce == context.nextNonce)))
  }

  /** The state the row is left in: expired by the clock or by its nonce, revoked, or as it was. */
  ghost function RowAfterReading(row: Workflow, now: int, context: Context): Workflow {
    var c := row.certificate;
    if c.issuedAt >= c.expiresAt then row
    else if c.expiresAt <= now then row.(state := EXPIRED)
    else if !IsLive(row, now) then row
    else if !Authorizes(context, c) then row.(state := REVOKED)
    else if row.transactionHash == None && c.nonce != context.nextNonce then row.(state := EXPIRED)
    else row
  }

  /** Where a tick goes from the registry's first answer, and what it leaves stored. */
  lemma ReadingDecides(s: System, tick: nat, attempt: nat, context: Context)
    requires Holds(s, tick, AwaitContext(attempt))
    ensures var row, after := s.workflow, Step(s, Resume(tick, ContextIs(context)));
            && (Holds(after, tick, AwaitEvaluation(attempt, context))
                <==> context.authorized && !RowStands(row, s.now, context))
            && (row.Some? ==>
                  (Holds(after, tick, AwaitReceipt(attempt, context, row.value)) <==>
                     IsLive(row.value, s.now) && Authorizes(context, row.value.certificate)
                     && row.value.transactionHash.Some?))
            && (row.Some? ==>
                  (Holds(after, tick, AwaitSubmitPolicy(attempt, row.value)) <==>
                     IsLive(row.value, s.now) && Authorizes(context, row.value.certificate)
                     && row.value.transactionHash == None && row.value.certificate.nonce == context.nextNonce))
            && (Holds(after, tick, AwaitEvaluation(attempt, context))
                || (row.Some? && (Holds(after, tick, AwaitReceipt(attempt, context, row.value))
                                  || Holds(after, tick, AwaitSubmitPolicy(attempt, row.value))))
                || HasEnded(after, tick, s.now, attempt))
            && after.workflow == (if row == None then None else Some(RowAfterReading(row.value, s.now, context)))
  {
  }

  // ----- The outcome of a sent certificate

  /** Without a canonical receipt the row waits as submitted and the tick ends. */
  lemma ReceiptDecides(s: System, tick: nat, attempt: nat, context: Context, w: Workflow, receipt: Option<Receipt>)
    requires Holds(s, tick, AwaitReceipt(attempt, context, w))
    ensures var after := Step(s, Resume(tick, ReceiptIs(receipt)));
            && after.history == s.history
            && if receipt.Some?
               then Holds(after, tick, AwaitReceiptCanonical(attempt, context, w, receipt.value))
                    && after.workflow == s.workflow
               else HasEnded(after, tick, s.now, attempt) && after.workflow == Some(w.(state := SUBMITTED))
  {
  }

  lemma CanonicalDecides(s: System, tick: nat, attempt: nat, context: Context, w: Workflow, receipt: Receipt,
    hash: Option<string>)
    requires Holds(s, tick, AwaitReceiptCanonical(attempt, context, w, receipt))
    ensures var after := Step(s, Resume(tick, CanonicalHashIs(hash)));
            && after.history == s.history
            && if hash == Some(receipt.blockHash)
               then Holds(after, tick, AwaitFinalized(attempt, context, w, receipt, hash))
                 && after.workflow == s.workflow
               else HasEnded(after, tick, s.now, attempt) && after.workflow == Some(w.(state := SUBMITTED))
  {
  }

  /**
   The row becomes active or failed exactly when the receipt's block is finalized and still canonical, by the
   receipt's success and with its block hash; a new certificate is prepared exactly when the active one expires
   within the renewal lead.
   */
  lemma FinalityDecides(s: System, tick: nat, attempt: nat, context: Context, w: Workflow, receipt: Receipt,
    canonical: Option<string>, finalized: nat, hash: Option<string>)
    requires Holds(s, tick, AwaitRecheck(attempt, context, w, receipt, canonical, finalized))
    ensures var after := Step(s, Resume(tick, CanonicalHashIs(hash)));
            var isFinal := hash == Some(receipt.blockHash) && receipt.blockNumber <= finalized;
            && after.workflow == (if !isFinal then s.workflow else
                 Some(w.(state := if receipt.success then ACTIVE else FAILED, blockHash := Some(receipt.blockHash))))
            && (Holds(after, tick, AwaitEvaluation(attempt, context)) <==>
                  isFinal && receipt.success && context.authorized
                  && w.certificate.expiresAt <= s.now + s.options.renewalLeadSeconds)
            && (Holds(after, tick, AwaitEvaluation(attempt, context)) || HasEnded(after, tick, s.now, attempt))
  {
  }

  // ----- A new certificate

  /** It is built for the registry's authority and next nonce, from now until the policy or its lifetime ends. */
  lemma BuildingDecides(s: System, tick: nat, attempt: nat, context: Context, evaluation: string, validUntil: int)
    requires Holds(s, tick, AwaitPolicy(attempt, context, evaluation))
    ensures var after := Step(s, Resume(tick, PolicyIs(validUntil)));
            && after.workflow == s.workflow && after.history == s.history
            && tick in after.ticks && after.ticks[tick].AwaitSigningContext?
            && var c := after.ticks[tick].certificate;
            && Holds(after, tick, AwaitSigningContext(attempt, c))
            && c.authority == context.authority && c.nonce == context.nextNonce && c.evaluation == evaluation
            && c.issuedAt == s.now
            && c.expiresAt <= validUntil && c.expiresAt <= s.now + s.options.certificateLifetimeSeconds
            && (c.expiresAt == validUntil || c.expiresAt == s.now + s.options.certificateLifetimeSeconds)
  {
  }

  /** A missing evaluation, signature approval or transaction hash ends the tick; a signature is stored all the same. */
  lemma RefusalsEnd(s: System, tick: nat, attempt: nat)
    requires tick in s.ticks && Holds(s, tick, s.ticks[tick]) && s.ticks[tick].attempt == attempt
    ensures s.ticks[tick].AwaitEvaluation? ==>
              var after := Step(s, Resume(tick, EvaluationIs(None)));
              HasEnded(after, tick, s.now, attempt) && after.workflow == s.workflow && after.history == s.history
    ensures s.ticks[tick].AwaitSignature? ==>
              var after := Step(s, Resume(tick, SignatureIs(false)));
              && HasEnded(after, tick, s.now, attempt)
              && after.workflow == Some(Workflow(s.ticks[tick].certificate, SIGNED, None, None))
              && after.history == s.history + [Persisted(s.ticks[tick].certificate)]
    ensures s.ticks[tick].AwaitSend? ==>
              var after := Step(s, Resume(tick, SentAs(None)));
              HasEnded(after, tick, s.now, attempt) && after.workflow == s.workflow && after.history == s.history
  {
  }

  /** A failed call ends its tick, whoever holds the lease; only the holder gives the job back, and no more changes. */
  lemma ThrowEnds(s: System, tick: nat)
    requires tick in s.ticks
    ensures var after := Step(s, Throw(tick));
            && after.ticks == s.ticks - {tick}
            && (s.job.status == RUNNING && s.job.attempt == s.ticks[tick].attempt
                ==> HasEnded(after, tick, s.now, s.job.attempt))
            && (s.job.status != RUNNING || s.job.attempt != s.ticks[tick].attempt ==> after.job == s.job)
            && after.(ticks := s.ticks, job := s.job) == s
  {
  }

  /** A crashed process leaves its lease to run out: until then no tick is claimed for the job. */
  lemma CrashLeavesLease(s: System, tick: nat, next: nat, seconds: nat)
    requires next !in s.ticks
    ensures var after := Step(Step(s, Crash(tick)), Elapse(seconds));
            && tick !in after.ticks && after.(ticks := s.ticks, now := s.now) == s && after.now == s.now + seconds
            && (Step(after, Claim(next)) != after <==> s.job.nextRunAt <= s.now + seconds)
  {
    ClaimDecides(Step(Step(s, Crash(tick)), Elapse(seconds)), next);
  }

  // ----- A whole tick

  ghost function Resumed(s: System, tick: nat, answers: seq<Answer>): System
    decreases |answers|
  {
    if answers == [] then s else Resumed(Step(s, Resume(tick, answers[0])), tick, answers[1..])
  }

  lemma ResumedOne(s: System, tick: nat, a: Answer)
    ensures Resumed(s, tick, [a]) == Step(s, Resume(tick, a))
  {
    hide Step;
    assert [a][1..] == [];
  }

  lemma {:induction false} ResumedMore(s: System, tick: nat, first: seq<Answer>, rest: seq<Answer>)
    ensures Resumed(s, tick, first + rest) == Resumed(Resumed(s, tick, first), tick, rest)
    decreases |first|
  {
    hide Step;
    if first == [] {
      assert first + rest == rest;
    } else {
      ResumedMore(Step(s, Resume(tick, first[0])), tick, first[1..], rest);
      assert (first + rest)[1..] == first[1..] + rest;
    }
  }

  lemma ResumedTwo(s: System, tick: nat, a: Answer, b: Answer)
    ensures Resumed(s, tick, [a, b]) == Step(Step(s, Resume(tick, a)), Resume(tick, b))
  {
    hide Step, Resumed;
    ResumedOne(s, tick, a);
    ResumedOne(Step(s, Resume(tick, a)), tick, b);
    ResumedMore(s, tick, [a], [b]);
    assert [a] + [b] == [a, b];
  }

  /** The state a cooperating environment takes a tick to. */
  ghost predicate Reaches(s: System, tick: nat, answers: seq<Answer>, phase: Phase, row: Option<Workflow>,
    events: seq<Event>)
  {
    var after := Resumed(s, tick, answers);
    && Holds(after, tick, phase) && after.workflow == row && after.history == s.history + events
    && after.now == s.now && after.options == s.options
  }

  lemma SigningGoesOn(s: System, tick: nat, attempt: nat, c: Certificate, context: Context)
    requires Holds(s, tick, AwaitSigningContext(attempt, c)) && Authorizes(context, c)
    ensures Reaches(s, tick, [ContextIs(context), Granted], AwaitSignature(attempt, c), s.workflow, [Signed(c, true)])
  {
    ResumedTwo(s, tick, ContextIs(context), Granted);
    hide Resumed;
  }

  lemma SignatureGoesOn(s: System, tick: nat, attempt: nat, c: Certificate, validUntil: int)
    requires Holds(s, tick, AwaitSignature(attempt, c))
    ensures var w := Workflow(c, SIGNED, None, None);
            Reaches(s, tick, [SignatureIs(true), PolicyIs(validUntil)], AwaitSubmitContext(attempt, w), Some(w),
              [Persisted(c)])
  {
    ResumedTwo(s, tick, SignatureIs(true), PolicyIs(validUntil));
    hide Resumed;
  }

  /** A row about to be sent is sent under its authority, and its hash is stored. */
  lemma SendingGoesOn(s: System, tick: nat, attempt: nat, w: Workflow, context: Context, hash: string)
    requires Holds(s, tick, AwaitSubmitContext(attempt, w)) && Authorizes(context, w.certificate)
    ensures var after := Resumed(s, tick, [ContextIs(context), Granted] + [SentAs(Some(hash))]);
            && HasEnded(after, tick, s.now, attempt)
            && after.workflow == Some(w.(state := SUBMITTED, transactionHash := Some(hash)))
            && after.history == s.history + [Sent(w.certificate)] + [Submitted(w.certificate, hash)]
  {
    ResumedMore(s, tick, [ContextIs(context), Granted], [SentAs(Some(hash))]);
    ResumedTwo(s, tick, ContextIs(context), Granted);
    ResumedOne(Resumed(s, tick, [ContextIs(context), Granted]), tick, SentAs(Some(hash)));
    hide Resumed;
  }

  lemma PreparationGoesOn(s: System, tick: nat, attempt: nat, context: Context, evaluation: string, validUntil: int)
    requires Holds(s, tick, AwaitEvaluation(attempt, context))
    ensures Reaches(s, tick, [EvaluationIs(Some(evaluation)), PolicyIs(validUntil)],
              AwaitSigningContext(attempt, NewCertificate(s, context, evaluation, validUntil)), s.workflow, [])
  {
    ResumedTwo(s, tick, EvaluationIs(Some(evaluation)), PolicyIs(validUntil));
    hide Resumed;
  }

  /** The answers a tick needs from the evaluation on when nothing refuses it. */
  ghost function Cooperation(context: Context, evaluation: string, validUntil: int, hash: string): seq<Answer> {
    [EvaluationIs(Some(evaluation)), PolicyIs(validUntil)]
    + ([ContextIs(context), Granted]
       + ([SignatureIs(true), PolicyIs(validUntil)] + ([ContextIs(context), Granted] + [SentAs(Some(hash))])))
  }

  /**
   A tick that starts an evaluation and is refused nothing signs, stores, sends and records exactly the
   certificate it built, and gives its lease back.
   */
  lemma UnhinderedTick(s: System, tick: nat, attempt: nat, context: Context, evaluation: string, validUntil: int,
    hash: string)
    requires Holds(s, tick, AwaitEvaluation(attempt, context)) && context.authorized
    ensures var after := Resumed(s, tick, Cooperation(context, evaluation, validUntil, hash));
            var c := NewCertificate(s, context, evaluation, validUntil);
            && HasEnded(after, tick, s.now, attempt)
            && after.workflow == Some(Workflow(c, SUBMITTED, Some(hash), None))
            && after.history == s.history + [Signed(c, true), Persisted(c), Sent(c), Submitted(c, hash)]
  {
    var c := NewCertificate(s, context, evaluation, validUntil);
    var w := Workflow(c, SIGNED, None, None);
    hide Resumed, Step;
    var toBuild := [EvaluationIs(Some(evaluation)), PolicyIs(validUntil)];
    var toSign := [ContextIs(context), Granted];
    var toStore := [SignatureIs(true), PolicyIs(validUntil)];
    var toSend := [ContextIs(context), Granted] + [SentAs(Some(hash))];
    PreparationGoesOn(s, tick, attempt, context, evaluation, validUntil);
    var s1 := Resumed(s, tick, toBuild);
    SigningGoesOn(s1, tick, attempt, c, context);
    var s2 := Resumed(s1, tick, toSign);
    SignatureGoesOn(s2, tick, attempt, c, validUntil);
    var s3 := Resumed(s2, tick, toStore);
    SendingGoesOn(s3, tick, attempt, w, context, hash);
    ResumedMore(s2, tick, toStore, toSend);
    ResumedMore(s1, tick, toSign, toStore + toSend);
    ResumedMore(s, tick, toBuild, toSign + (toStore + toSend));
  }

  // ----- The lease

  /** A step changes the job only by claiming it when it is due, or by ending the tick that holds it. */
  lemma JobDecides(s: System, action: Action)
    ensures var job := Step(s, action).job;
            || job == s.job
            || (action.Claim? && s.job.nextRunAt <= s.now && job == Job(RUNNING, s.job.attempt + 1, s.now + 120)
                && Holds(Step(s, action), action.tick, AwaitContext(s.job.attempt + 1)))
            || (EndsHolder(s, action) && job == Job(QUEUED, s.job.attempt, s.now + 10))
    ensures s.now <= Step(s, action).now
  {
  }

  /** The step belongs to the tick that holds the lease. */
  ghost predicate EndsHolder(s: System, action: Action) {
    && s.job.status == RUNNING && (action.Resume? || action.Throw?)
    && action.tick in s.ticks && s.ticks[action.tick].attempt == s.job.attempt
  }

  /** A due job is always given to a new tick. */
  lemma ClaimDecides(s: System, tick: nat)
    requires tick !in s.ticks
    ensures s.job.nextRunAt <= s.now <==> Step(s, Claim(tick)) != s
    ensures s.job.nextRunAt <= s.now ==>
              Step(s, Claim(tick)).workflow == s.workflow && Step(s, Claim(tick)).history == s.history
              && Holds(Step(s, Claim(tick)), tick, AwaitContext(s.job.attempt + 1))
  {
    assert s.job.nextRunAt <= s.now ==> tick in Step(s, Claim(tick)).ticks;
  }

  /** Somewhere along the run the lease is given back by the tick that holds it. */
  ghost predicate GivenBack(s: System, actions: seq<Action>) {
    exists j :: 0 <= j < |actions| && Run(s, actions[..j]).job == s.job && EndsHolder(Run(s, actions[..j]), actions[j])
  }

  /** A lease that is not given back by its own tick stands until it runs out, whatever else happens. */
  lemma {:induction false} LeaseIsExclusive(s: System, actions: seq<Action>)
    requires s.job.status == RUNNING
    ensures Run(s, actions).job == s.job || s.job.nextRunAt <= Run(s, actions).now || GivenBack(s, actions)
    decreases |actions|
  {
    if actions != [] {
      hide Step, EndsHolder, Holds;
      var n := |actions| - 1;
      LeaseIsExclusive(s, actions[..n]);
      JobDecides(Run(s, actions[..n]), actions[n]);
      if GivenBack(s, actions[..n]) {
        var j :| 0 <= j < n && Run(s, actions[..n][..j]).job == s.job
          && EndsHolder(Run(s, actions[..n][..j]), actions[..n][j]);
        assert actions[..n][..j] == actions[..j];
      }
    }
  }
}
