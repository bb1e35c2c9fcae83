/**
 The durable risk-certificate outbox as a state machine
 (packages/services/src/risk-worker.ts:75-338, with the job lease and workflow row of
 packages/services/src/db/repository.ts:1231-1256 and 1389-1460).

 Any number of ticks interleave.  One atomic step runs a tick from one `await` to the next; the
 awaited answers, exceptions, crashes and the clock belong to the environment.  `history` records
 what a reader of the whole run would see; no step reads it.
 */
module RiskWorker {
  import opened Wrappers

  datatype Authority = Authority(policyNonce: nat, authorizationEpoch: nat, registry: string, watchtower: string,
    chainId: nat)
  datatype Context = Context(authority: Authority, nextNonce: nat, authorized: bool)
  datatype Certificate = Certificate(authority: Authority, nonce: nat, issuedAt: int, expiresAt: int,
    evaluation: string)
  datatype WorkflowState = SIGNED | SUBMITTED | ACTIVE | REVOKED | EXPIRED | FAILED
  datatype Workflow = Workflow(certificate: Certificate, state: WorkflowState, transactionHash: Option<string>,
    blockHash: Option<string>)
  datatype Receipt = Receipt(blockNumber: nat, blockHash: string, success: bool)

  datatype JobStatus = QUEUED | RUNNING
  datatype Job = Job(status: JobStatus, attempt: nat, nextRunAt: int)
  datatype Options = Options(certificateLifetimeSeconds: int, renewalLeadSeconds: int)

  /** Where a tick is suspended, with the locals it still needs. */
  datatype Phase =
    | AwaitContext(attempt: nat)
    | AwaitReceipt(attempt: nat, context: Context, workflow: Workflow)
    | AwaitReceiptCanonical(attempt: nat, context: Context, workflow: Workflow, receipt: Receipt)
    | AwaitFinalized(attempt: nat, context: Context, workflow: Workflow, receipt: Receipt, canonical: Option<string>)
    | AwaitRecheck(attempt: nat, context: Context, workflow: Workflow, receipt: Receipt, canonical: Option<string>,
      finalized: nat)
    | AwaitEvaluation(attempt: nat, context: Context)
    | AwaitPolicy(attempt: nat, context: Context, evaluation: string)
    | AwaitSigningContext(attempt: nat, certificate: Certificate)
    | AwaitSigningGrant(attempt: nat, certificate: Certificate)
    | AwaitSignature(attempt: nat, certificate: Certificate)
    | AwaitSubmitPolicy(attempt: nat, workflow: Workflow)
    | AwaitSubmitContext(attempt: nat, workflow: Workflow)
    | AwaitSendGrant(attempt: nat, workflow: Workflow)
    | AwaitSend(attempt: nat, workflow: Workflow)

  /** What the environment answers at an await. */
  datatype Answer =
    | ContextIs(context: Context)
    | ReceiptIs(receipt: Option<Receipt>)
    | CanonicalHashIs(hash: Option<string>)
    | FinalizedIs(block: nat)
    | EvaluationIs(evaluation: Option<string>)
    | PolicyIs(validUntil: int)
    | Granted
    | SignatureIs(accepted: bool)
    | SentAs(transactionHash: Option<string>)

  datatype Reason =
    | Expired(at: int)
    | Revoked(context: Context)
    | Superseded(nextNonce: nat)
    | Finalized(transactionHash: Option<string>, receipt: Receipt, canonical: Option<string>, rechecked: Option<string>,
      finalized: nat)

  datatype Event =
    | Persisted(certificate: Certificate)
    | Closed(certificate: Certificate, reason: Reason)
    | Signed(certificate: Certificate, leaseHeld: bool)
    | Sent(certificate: Certificate)
    | Submitted(certificate: Certificate, transactionHash: string)

  datatype System = System(
    now: int, options: Options, job: Job, workflow: Option<Workflow>, ticks: map<nat, Phase>, history: seq<Event>)

  datatype Action = Claim(tick: nat) | Resume(tick: nat, answer: Answer) | Throw(tick: nat) | Crash(tick: nat)
    | Elapse(seconds: nat)

  // ----- The repository operations

  predicate Owns(s: System, attempt: nat) {
    s.job.status == RUNNING && s.job.attempt == attempt
  }

  /** The `finally` block: the lease is given back only by the attempt that still holds it. */
  function End(s: System, tick: nat, attempt: nat): System {
    var job := if Owns(s, attempt) then s.job.(status := QUEUED, nextRunAt := s.now + 10) else s.job;
    s.(job := job, ticks := s.ticks - {tick})
  }

  function Suspend(s: System, tick: nat, phase: Phase): System {
    s.(ticks := s.ticks[tick := phase])
  }

  function Log(s: System, e: Event): System {
    s.(history := s.history + [e])
  }

  function Save(s: System, workflow: Workflow): System {
    s.(workflow := Some(workflow))
  }

  function ClaimJob(s: System, tick: nat): System {
    if tick in s.ticks || s.job.nextRunAt > s.now then s
    else
      var attempt := s.job.attempt + 1;
      Suspend(s.(job := Job(RUNNING, attempt, s.now + 120)), tick, AwaitContext(attempt))
  }

  // ----- The tick, from await to await

  predicate Matches(context: Context, certificate: Certificate) {
    context.authorized && certificate.authority == context.authority
  }

  predicate Terminal(state: WorkflowState) {
    state == REVOKED || state == EXPIRED || state == FAILED
  }

  /** A stored certificate that does not outlive its issue fails the schema when it is read back. */
  predicate Readable(workflow: Workflow) {
    workflow.certificate.issuedAt < workflow.certificate.expiresAt
  }

  function StartEvaluation(s: System, tick: nat, attempt: nat, context: Context): System {
    if !context.authorized then End(s, tick, attempt)
    else Suspend(s, tick, AwaitEvaluation(attempt, context))
  }

  function OnContext(s: System, tick: nat, attempt: nat, context: Context): System {
    if s.workflow == None then StartEvaluation(s, tick, attempt, context)
    else
      var stored := s.workflow.value;
      var c := stored.certificate;
      if !Readable(stored) then End(s, tick, attempt)
      else if c.expiresAt <= s.now then
        StartEvaluation(Save(Log(s, Closed(c, Expired(s.now))), stored.(state := EXPIRED)), tick, attempt, context)
      else if Terminal(stored.state) then StartEvaluation(s, tick, attempt, context)
      else if !Matches(context, c) then
        End(Save(Log(s, Closed(c, Revoked(context))), stored.(state := REVOKED)), tick, attempt)
      else if stored.transactionHash.Some? then Suspend(s, tick, AwaitReceipt(attempt, context, stored))
      else if c.nonce != context.nextNonce then
        StartEvaluation(Save(Log(s, Closed(c, Superseded(context.nextNonce))), stored.(state := EXPIRED)), tick,
          attempt, context)
      else Suspend(s, tick, AwaitSubmitPolicy(attempt, stored))
  }

  /** Wait for the known hash; no second nonce is issued while its outcome is unknown. */
  function OutcomeUnknown(s: System, tick: nat, attempt: nat, workflow: Workflow): System {
    End(Save(s, workflow.(state := SUBMITTED)), tick, attempt)
  }

  function OnFinal(s: System, tick: nat, attempt: nat, context: Context, workflow: Workflow, receipt: Receipt,
    reason: Reason): System
  {
    var c := workflow.certificate;
    var done := workflow.(state := if receipt.success then ACTIVE else FAILED, blockHash := Some(receipt.blockHash));
    var saved := Save(Log(s, Closed(c, reason)), done);
    if !receipt.success || c.expiresAt > s.now + s.options.renewalLeadSeconds then End(saved, tick, attempt)
    else StartEvaluation(saved, tick, attempt, context)
  }

  function NewCertificate(s: System, context: Context, evaluation: string, validUntil: int): Certificate {
    var limit := s.now + s.options.certificateLifetimeSeconds;
    Certificate(context.authority, context.nextNonce, s.now,
      if validUntil < limit then validUntil else limit, evaluation)
  }

  /** Resuming a suspended tick.  Every await but the signing grant is followed by the lease check. */
  function OnAnswer(s: System, tick: nat, phase: Phase, answer: Answer): System {
    if phase.AwaitSigningGrant? && answer.Granted? then
      Suspend(Log(s, Signed(phase.certificate, Owns(s, phase.attempt))), tick,
        AwaitSignature(phase.attempt, phase.certificate))
    else if !Owns(s, phase.attempt) then End(s, tick, phase.attempt)
    else
      match (phase, answer)
      case (AwaitContext(a), ContextIs(context)) => OnContext(s, tick, a, context)
      case (AwaitReceipt(a, context, w), ReceiptIs(receipt)) =>
        if receipt == None then OutcomeUnknown(s, tick, a, w)
        else Suspend(s, tick, AwaitReceiptCanonical(a, context, w, receipt.value))
      case (AwaitReceiptCanonical(a, context, w, receipt), CanonicalHashIs(hash)) =>
        if hash != Some(receipt.blockHash) then OutcomeUnknown(s, tick, a, w)
        else Suspend(s, tick, AwaitFinalized(a, context, w, receipt, hash))
      case (AwaitFinalized(a, context, w, receipt, canonical), FinalizedIs(block)) =>
        Suspend(s, tick, AwaitRecheck(a, context, w, receipt, canonical, block))
      case (AwaitRecheck(a, context, w, receipt, canonical, finalized), CanonicalHashIs(hash)) =>
        if hash != Some(receipt.blockHash) || receipt.blockNumber > finalized then End(s, tick, a)
        else OnFinal(s, tick, a, context, w, receipt, Finalized(w.transactionHash, receipt, canonical, hash, finalized))
      case (AwaitEvaluation(a, context), EvaluationIs(evaluation)) =>
        if evaluation == None then End(s, tick, a)
        else Suspend(s, tick, AwaitPolicy(a, context, evaluation.value))
      case (AwaitPolicy(a, context, evaluation), PolicyIs(validUntil)) =>
        Suspend(s, tick, AwaitSigningContext(a, NewCertificate(s, context, evaluation, validUntil)))
      case (AwaitSigningContext(a, c), ContextIs(context)) =>
        if !Matches(context, c) then End(s, tick, a) else Suspend(s, tick, AwaitSigningGrant(a, c))
      case (AwaitSignature(a, c), SignatureIs(accepted)) =>
        var saved := Save(Log(s, Persisted(c)), Workflow(c, SIGNED, None, None));
        if !accepted then End(saved, tick, a)
        else Suspend(saved, tick, AwaitSubmitPolicy(a, Workflow(c, SIGNED, None, None)))
      case (AwaitSubmitPolicy(a, w), PolicyIs(_)) => Suspend(s, tick, AwaitSubmitContext(a, w))
      case (AwaitSubmitContext(a, w), ContextIs(context)) =>
        if !Matches(context, w.certificate) then End(s, tick, a) else Suspend(s, tick, AwaitSendGrant(a, w))
      case (AwaitSendGrant(a, w), Granted) => Suspend(Log(s, Sent(w.certificate)), tick, AwaitSend(a, w))
      case (AwaitSend(a, w), SentAs(hash)) =>
        if hash == None then End(s, tick, a)
        else End(Save(Log(s, Submitted(w.certificate, hash.value)),
          w.(state := SUBMITTED, transactionHash := hash)), tick, a)
      case _ => s
  }

  function Step(s: System, action: Action): System {
    match action
    case Claim(tick) => ClaimJob(s, tick)
    case Resume(tick, answer) => if tick in s.ticks then OnAnswer(s, tick, s.ticks[tick], answer) else s
    case Throw(tick) => if tick in s.ticks then End(s, tick, s.ticks[tick].attempt) else s
    case Crash(tick) => s.(ticks := s.ticks - {tick})
    case Elapse(seconds) => s.(now := s.now + seconds)
  }

  function Init(options: Options, now: int): System {
    System(now, options, Job(QUEUED, 0, now), None, map[], [])
  }

  function Run(s: System, actions: seq<Action>): System {
    if actions == [] then s else Step(Run(s, actions[..|actions| - 1]), actions[|actions| - 1])
  }

  // ----- Reading a history

  function LastPersisted(h: seq<Event>): Option<Certificate> {
    if h == [] then None
    else if h[|h| - 1].Persisted? then Some(h[|h| - 1].certificate)
    else LastPersisted(h[..|h| - 1])
  }

  /** A closing event follows the last persisted certificate. */
  predicate ClosedSince(h: seq<Event>) {
    h != [] && !h[|h| - 1].Persisted? && (h[|h| - 1].Closed? || ClosedSince(h[..|h| - 1]))
  }

  predicate Replaceable(h: seq<Event>) {
    LastPersisted(h) == None || ClosedSince(h)
  }

  /** The reason really ended the certificate's life. */
  predicate Justified(c: Certificate, reason: Reason) {
    match reason
    case Expired(at) => c.expiresAt <= at
    case Revoked(context) => !Matches(context, c)
    case Superseded(nextNonce) => c.nonce != nextNonce
    case Finalized(_, receipt, canonical, rechecked, finalized) =>
      receipt.blockNumber <= finalized && canonical == rechecked == Some(receipt.blockHash)
  }

  predicate LawfulEvent(before: seq<Event>, e: Event) {
    match e
    case Persisted(_) => Replaceable(before)
    case Closed(c, reason) =>
      && LastPersisted(before) == Some(c) && Justified(c, reason)
      && (reason.Finalized? ==> reason.transactionHash.Some? && Submitted(c, reason.transactionHash.value) in before)
    case Signed(_, leaseHeld) => leaseHeld ==> Replaceable(before)
    case Sent(c) => LastPersisted(before) == Some(c) && !ClosedSince(before)
    case Submitted(c, _) => LastPersisted(before) == Some(c) && Sent(c) in before
  }

  predicate Lawful(h: seq<Event>) {
    h == [] || (Lawful(h[..|h| - 1]) && LawfulEvent(h[..|h| - 1], h[|h| - 1]))
  }

  lemma AppendEvent(h: seq<Event>, e: Event)
    ensures (h + [e])[..|h + [e]| - 1] == h && (h + [e])[|h + [e]| - 1] == e
    ensures LastPersisted(h + [e]) == if e.Persisted? then Some(e.certificate) else LastPersisted(h)
    ensures ClosedSince(h + [e]) == (!e.Persisted? && (e.Closed? || ClosedSince(h)))
    ensures Lawful(h + [e]) == (Lawful(h) && LawfulEvent(h, e))
  {
    assert (h + [e])[..|h + [e]| - 1] == h;
  }

  // ----- The invariant

  /** Attempts fence ticks: no two share one, and none is ahead of the job. */
  ghost predicate Fenced(s: System) {
    && (forall t :: t in s.ticks ==> s.ticks[t].attempt <= s.job.attempt)
    && forall t, u :: t in s.ticks && u in s.ticks && t != u ==> s.ticks[t].attempt != s.ticks[u].attempt
  }

  /**
   The stored row of a certificate that nothing has closed: signed, or submitted and never found final.
   A finalization leaves its block hash in the row, even if a later tick sets it back to submitted.
   */
  predicate RowIsOpen(w: Workflow) {
    w.state == SIGNED || (w.state == SUBMITTED && w.blockHash == None)
  }

  /** The fields of a stored row fit together. */
  predicate RowIsRegular(w: Workflow) {
    && (w.state == SIGNED ==> w.transactionHash == None && w.blockHash == None)
    && (w.state == SUBMITTED || w.state == ACTIVE ==> w.transactionHash.Some?)
    && (w.state == ACTIVE ==> w.blockHash.Some?)
  }

  /** The stored row agrees with the history, and tells exactly whether its certificate is open. */
  ghost predicate StoreAgrees(workflow: Option<Workflow>, h: seq<Event>) {
    match workflow
    case None => LastPersisted(h) == None
    case Some(w) =>
      && LastPersisted(h) == Some(w.certificate) && RowIsRegular(w)
      && (RowIsOpen(w) <==> !ClosedSince(h))
      && (w.transactionHash.Some? ==> Submitted(w.certificate, w.transactionHash.value) in h)
  }

  predicate AwaitsOutcome(w: Workflow) {
    w.transactionHash.Some? && !Terminal(w.state)
  }

  /** What the lease holder may rely on while it is suspended. */
  ghost predicate HolderView(workflow: Option<Workflow>, h: seq<Event>, phase: Phase) {
    match phase
    case AwaitContext(_) => true
    case AwaitReceipt(_, _, w) => workflow == Some(w) && AwaitsOutcome(w)
    case AwaitReceiptCanonical(_, _, w, _) => workflow == Some(w) && AwaitsOutcome(w)
    case AwaitFinalized(_, _, w, receipt, canonical) => workflow == Some(w) && AwaitsOutcome(w)
      && canonical == Some(receipt.blockHash)
    case AwaitRecheck(_, _, w, receipt, canonical, _) => workflow == Some(w) && AwaitsOutcome(w)
      && canonical == Some(receipt.blockHash)
    case AwaitEvaluation(_, _) => Replaceable(h)
    case AwaitPolicy(_, _, _) => Replaceable(h)
    case AwaitSigningContext(_, _) => Replaceable(h)
    case AwaitSigningGrant(_, _) => Replaceable(h)
    case AwaitSignature(_, _) => Replaceable(h)
    case AwaitSubmitPolicy(_, w) => workflow == Some(w) && w.state == SIGNED
    case AwaitSubmitContext(_, w) => workflow == Some(w) && w.state == SIGNED
    case AwaitSendGrant(_, w) => workflow == Some(w) && w.state == SIGNED
    case AwaitSend(_, w) => workflow == Some(w) && w.state == SIGNED && Sent(w.certificate) in h
  }

  ghost predicate HoldersAgree(s: System) {
    forall t :: t in s.ticks && Owns(s, s.ticks[t].attempt) ==> HolderView(s.workflow, s.history, s.ticks[t])
  }

  ghost predicate Inv(s: System) {
    Fenced(s) && StoreAgrees(s.workflow, s.history) && HoldersAgree(s) && Lawful(s.history)
  }

  // ----- Every step keeps it

  /** A step of the lease holder may rewrite store and history: no other tick holds the lease. */
  lemma HolderMoves(s: System, tick: nat, workflow: Option<Workflow>, history: seq<Event>, phase: Phase)
    requires Inv(s) && tick in s.ticks && Owns(s, s.ticks[tick].attempt) && phase.attempt == s.ticks[tick].attempt
    requires StoreAgrees(workflow, history) && Lawful(history) && HolderView(workflow, history, phase)
    ensures Inv(Suspend(s.(workflow := workflow, history := history), tick, phase))
  {
    hide StoreAgrees, Lawful, HolderView;
  }

  lemma HolderEnds(s: System, tick: nat, workflow: Option<Workflow>, history: seq<Event>)
    requires Inv(s) && tick in s.ticks && Owns(s, s.ticks[tick].attempt)
    requires StoreAgrees(workflow, history) && Lawful(history)
    ensures Inv(End(s.(workflow := workflow, history := history), tick, s.ticks[tick].attempt))
  {
    hide StoreAgrees, Lawful, HolderView;
  }

  lemma TickEnds(s: System, tick: nat, attempt: nat)
    requires Inv(s) && tick in s.ticks && attempt == s.ticks[tick].attempt
    ensures Inv(End(s, tick, attempt)) && Inv(s.(ticks := s.ticks - {tick}))
  {
    hide StoreAgrees, Lawful, HolderView;
  }

  lemma ClaimKeeps(s: System, tick: nat)
    requires Inv(s)
    ensures Inv(ClaimJob(s, tick))
  {
    hide StoreAgrees, Lawful;
  }

  /** Signing after a lost lease changes nothing anyone relies on. */
  lemma SigningKeeps(s: System, tick: nat, phase: Phase)
    requires Inv(s) && tick in s.ticks && s.ticks[tick] == phase && phase.AwaitSigningGrant?
    ensures Inv(OnAnswer(s, tick, phase, Granted))
  {
    var e := Signed(phase.certificate, Owns(s, phase.attempt));
    AppendEvent(s.history, e);
    var after := OnAnswer(s, tick, phase, Granted);
    forall t | t in after.ticks && Owns(after, after.ticks[t].attempt)
      ensures HolderView(after.workflow, after.history, after.ticks[t])
    {
      assert t != tick ==> HolderView(s.workflow, s.history, s.ticks[t]);
    }
  }

  /** Beginning an evaluation needs only that the stored certificate may be replaced. */
  lemma StartEvaluationKeeps(s: System, tick: nat, context: Context, workflow: Option<Workflow>, history: seq<Event>)
    requires Inv(s) && tick in s.ticks && Owns(s, s.ticks[tick].attempt)
    requires StoreAgrees(workflow, history) && Lawful(history) && Replaceable(history)
    ensures Inv(StartEvaluation(s.(workflow := workflow, history := history), tick, s.ticks[tick].attempt, context))
  {
    hide StoreAgrees, Lawful, Inv;
    var a := s.ticks[tick].attempt;
    if context.authorized {
      HolderMoves(s, tick, workflow, history, AwaitEvaluation(a, context));
    } else {
      HolderEnds(s, tick, workflow, history);
    }
  }

  /** Closing the stored certificate for a justified reason, with any state that records it. */
  lemma ClosingAgrees(workflow: Workflow, h: seq<Event>, reason: Reason, after: Workflow)
    requires StoreAgrees(Some(workflow), h) && Lawful(h) && Justified(workflow.certificate, reason)
    requires after.certificate == workflow.certificate && after.transactionHash == workflow.transactionHash
    requires RowIsRegular(after) && !RowIsOpen(after)
    requires reason.Finalized? ==> reason.transactionHash.Some? && reason.transactionHash == workflow.transactionHash
    ensures StoreAgrees(Some(after), h + [Closed(workflow.certificate, reason)])
    ensures Lawful(h + [Closed(workflow.certificate, reason)])
      && Replaceable(h + [Closed(workflow.certificate, reason)])
  {
    AppendEvent(h, Closed(workflow.certificate, reason));
  }

  lemma ContextKeeps(s: System, tick: nat, context: Context)
    requires Inv(s) && tick in s.ticks && Owns(s, s.ticks[tick].attempt)
    ensures Inv(OnContext(s, tick, s.ticks[tick].attempt, context))
  {
    hide Fenced, HoldersAgree, Lawful, StartEvaluation, End, ClosedSince, LastPersisted;
    var a := s.ticks[tick].attempt;
    assert s.(workflow := s.workflow, history := s.history) == s;
    if s.workflow == None {
      StartEvaluationKeeps(s, tick, context, None, s.history);
    } else {
      var stored := s.workflow.value;
      var c := stored.certificate;
      if !Readable(stored) {
        HolderEnds(s, tick, s.workflow, s.history);
      } else if c.expiresAt <= s.now {
        ClosingAgrees(stored, s.history, Expired(s.now), stored.(state := EXPIRED));
        StartEvaluationKeeps(s, tick, context, Some(stored.(state := EXPIRED)),
          s.history + [Closed(c, Expired(s.now))]);
      } else if Terminal(stored.state) {
        StartEvaluationKeeps(s, tick, context, s.workflow, s.history);
      } else if !Matches(context, c) {
        ClosingAgrees(stored, s.history, Revoked(context), stored.(state := REVOKED));
        HolderEnds(s, tick, Some(stored.(state := REVOKED)), s.history + [Closed(c, Revoked(context))]);
      } else if stored.transactionHash.Some? {
        HolderMoves(s, tick, s.workflow, s.history, AwaitReceipt(a, context, stored));
      } else if c.nonce != context.nextNonce {
        ClosingAgrees(stored, s.history, Superseded(context.nextNonce), stored.(state := EXPIRED));
        StartEvaluationKeeps(s, tick, context, Some(stored.(state := EXPIRED)),
          s.history + [Closed(c, Superseded(context.nextNonce))]);
      } else {
        HolderMoves(s, tick, s.workflow, s.history, AwaitSubmitPolicy(a, stored));
      }
    }
  }

  lemma ReceiptPhasesKeep(s: System, tick: nat, answer: Answer)
    requires Inv(s) && tick in s.ticks && Owns(s, s.ticks[tick].attempt)
    requires var p := s.ticks[tick]; p.AwaitReceipt? || p.AwaitReceiptCanonical? || p.AwaitFinalized? || p.AwaitRecheck?
    ensures Inv(OnAnswer(s, tick, s.ticks[tick], answer))
  {
    hide Fenced, Lawful, StartEvaluation, End, ClosedSince, LastPersisted;
    var phase := s.ticks[tick];
    var w := phase.workflow;
    assert HolderView(s.workflow, s.history, phase);
    assert s.(workflow := s.workflow, history := s.history) == s;
    HolderEnds(s, tick, s.workflow, s.history);
    HolderEnds(s, tick, Some(w.(state := SUBMITTED)), s.history);
    match (phase, answer)
    case (AwaitReceipt(a, context, _), ReceiptIs(Some(receipt))) =>
      HolderMoves(s, tick, s.workflow, s.history, AwaitReceiptCanonical(a, context, w, receipt));
    case (AwaitReceiptCanonical(a, context, _, receipt), CanonicalHashIs(hash)) =>
      if hash == Some(receipt.blockHash) {
        HolderMoves(s, tick, s.workflow, s.history, AwaitFinalized(a, context, w, receipt, hash));
      }
    case (AwaitFinalized(a, context, _, receipt, canonical), FinalizedIs(block)) =>
      HolderMoves(s, tick, s.workflow, s.history, AwaitRecheck(a, context, w, receipt, canonical, block));
    case (AwaitRecheck(a, context, _, receipt, canonical, finalized), CanonicalHashIs(hash)) =>
      if hash == Some(receipt.blockHash) && receipt.blockNumber <= finalized {
        var done := w.(state := if receipt.success then ACTIVE else FAILED, blockHash := Some(receipt.blockHash));
        var reason := Finalized(w.transactionHash, receipt, canonical, hash, finalized);
        ClosingAgrees(w, s.history, reason, done);
        var h := s.history + [Closed(w.certificate, reason)];
        StartEvaluationKeeps(s, tick, context, Some(done), h);
        HolderEnds(s, tick, Some(done), h);
      }
    case _ =>
  }

  lemma SigningPhasesKeep(s: System, tick: nat, answer: Answer)
    requires Inv(s) && tick in s.ticks && Owns(s, s.ticks[tick].attempt)
    requires var p := s.ticks[tick];
      p.AwaitEvaluation? || p.AwaitPolicy? || p.AwaitSigningContext? || (p.AwaitSigningGrant? && !answer.Granted?)
      || p.AwaitSignature?
    ensures Inv(OnAnswer(s, tick, s.ticks[tick], answer))
  {
    hide Fenced, Lawful, End, ClosedSince, LastPersisted;
    var phase := s.ticks[tick];
    assert HolderView(s.workflow, s.history, phase);
    assert s.(workflow := s.workflow, history := s.history) == s;
    HolderEnds(s, tick, s.workflow, s.history);
    match (phase, answer)
    case (AwaitEvaluation(a, context), EvaluationIs(Some(evaluation))) =>
      HolderMoves(s, tick, s.workflow, s.history, AwaitPolicy(a, context, evaluation));
    case (AwaitPolicy(a, context, evaluation), PolicyIs(validUntil)) =>
      HolderMoves(s, tick, s.workflow, s.history,
        AwaitSigningContext(a, NewCertificate(s, context, evaluation, validUntil)));
    case (AwaitSigningContext(a, c), ContextIs(context)) =>
      HolderMoves(s, tick, s.workflow, s.history, AwaitSigningGrant(a, c));
    case (AwaitSignature(a, c), SignatureIs(accepted)) =>
      var w := Workflow(c, SIGNED, None, None);
      AppendEvent(s.history, Persisted(c));
      HolderEnds(s, tick, Some(w), s.history + [Persisted(c)]);
      HolderMoves(s, tick, Some(w), s.history + [Persisted(c)], AwaitSubmitPolicy(a, w));
    case _ =>
  }

  lemma SubmitPhasesKeep(s: System, tick: nat, answer: Answer)
    requires Inv(s) && tick in s.ticks && Owns(s, s.ticks[tick].attempt)
    requires var p := s.ticks[tick]; p.AwaitSubmitPolicy? || p.AwaitSubmitContext? || p.AwaitSendGrant? || p.AwaitSend?
    ensures Inv(OnAnswer(s, tick, s.ticks[tick], answer))
  {
    hide Fenced, Lawful, End, ClosedSince, LastPersisted;
    var phase := s.ticks[tick];
    var w := phase.workflow;
    assert HolderView(s.workflow, s.history, phase);
    assert s.(workflow := s.workflow, history := s.history) == s;
    HolderEnds(s, tick, s.workflow, s.history);
    match (phase, answer)
    case (AwaitSubmitPolicy(a, _), PolicyIs(_)) =>
      HolderMoves(s, tick, s.workflow, s.history, AwaitSubmitContext(a, w));
    case (AwaitSubmitContext(a, _), ContextIs(context)) =>
      HolderMoves(s, tick, s.workflow, s.history, AwaitSendGrant(a, w));
    case (AwaitSendGrant(a, _), Granted) =>
      AppendEvent(s.history, Sent(w.certificate));
      HolderMoves(s, tick, s.workflow, s.history + [Sent(w.certificate)], AwaitSend(a, w));
    case (AwaitSend(a, _), SentAs(Some(hash))) =>
      var e := Submitted(w.certificate, hash);
      AppendEvent(s.history, e);
      HolderEnds(s, tick, Some(w.(state := SUBMITTED, transactionHash := Some(hash))), s.history + [e]);
    case _ =>
  }

  lemma StepKeepsInv(s: System, action: Action)
    requires Inv(s)
    ensures Inv(Step(s, action))
  {
    hide Inv, ClaimJob, End, OnContext;
    match action
    case Claim(tick) => ClaimKeeps(s, tick);
    case Resume(tick, answer) =>
      if tick in s.ticks {
        AnswerKeeps(s, tick, answer);
      }
    case Throw(tick) =>
      if tick in s.ticks {
        TickEnds(s, tick, s.ticks[tick].attempt);
      }
    case Crash(tick) =>
      if tick in s.ticks {
        TickEnds(s, tick, s.ticks[tick].attempt);
      } else {
        assert s.ticks - {tick} == s.ticks;
      }
    case Elapse(seconds) => ElapseKeeps(s, seconds);
  }

  lemma ElapseKeeps(s: System, seconds: nat)
    requires Inv(s)
    ensures Inv(s.(now := s.now + seconds))
  {
    hide StoreAgrees, Lawful, HolderView;
  }

  lemma AnswerKeeps(s: System, tick: nat, answer: Answer)
    requires Inv(s) && tick in s.ticks
    ensures Inv(OnAnswer(s, tick, s.ticks[tick], answer))
  {
    hide Inv, End, OnContext;
    var phase := s.ticks[tick];
    if phase.AwaitSigningGrant? && answer.Granted? {
      SigningKeeps(s, tick, phase);
    } else if !Owns(s, phase.attempt) {
      TickEnds(s, tick, phase.attempt);
    } else {
      match phase
      case AwaitContext(_) =>
        if answer.ContextIs? {
          ContextKeeps(s, tick, answer.context);
        }
      case AwaitReceipt(_, _, _) => ReceiptPhasesKeep(s, tick, answer);
      case AwaitReceiptCanonical(_, _, _, _) => ReceiptPhasesKeep(s, tick, answer);
      case AwaitFinalized(_, _, _, _, _) => ReceiptPhasesKeep(s, tick, answer);
      case AwaitRecheck(_, _, _, _, _, _) => ReceiptPhasesKeep(s, tick, answer);
      case AwaitEvaluation(_, _) => SigningPhasesKeep(s, tick, answer);
      case AwaitPolicy(_, _, _) => SigningPhasesKeep(s, tick, answer);
      case AwaitSigningContext(_, _) => SigningPhasesKeep(s, tick, answer);
      case AwaitSigningGrant(_, _) => SigningPhasesKeep(s, tick, answer);
      case AwaitSignature(_, _) => SigningPhasesKeep(s, tick, answer);
      case AwaitSubmitPolicy(_, _) => SubmitPhasesKeep(s, tick, answer);
      case AwaitSubmitContext(_, _) => SubmitPhasesKeep(s, tick, answer);
      case AwaitSendGrant(_, _) => SubmitPhasesKeep(s, tick, answer);
      case AwaitSend(_, _) => SubmitPhasesKeep(s, tick, answer);
    }
  }

  lemma {:induction false} RunKeepsInv(options: Options, now: int, actions: seq<Action>)
    ensures Inv(Run(Init(options, now), actions))
    decreases |actions|
  {
    if actions != [] {
      RunKeepsInv(options, now, actions[..|actions| - 1]);
      StepKeepsInv(Run(Init(options, now), actions[..|actions| - 1]), actions[|actions| - 1]);
    }
  }
}
