/** The Job entity and its lifecycle policy. */
module Jobs {
  import opened Wrappers
  import opened Text

  datatype JobStatus = Queued | Running | WaitingReview | WaitingApproval | Completed | Failed | Cancelled

  datatype JobStep =
    | LoadIac
    | LoadPolicyProfile
    | BuildEffectiveRules
    | LoadPolicyEvidence
    | Assess
    | PolicyReview
    | GenerateFindings
    | GenerateReport
    | GenerateRemediation
    | CreatePr
    | CiValidation
    | AwsDiscovery
    | PreDeployValidation
    | TerraformPlan
    | Apply
    | PostDeployVerification

  datatype ApiError = ApiError(code: string, message: string)

  datatype Job = Job(
    jobId: string,
    jobType: string,
    status: JobStatus,
    currentStep: JobStep,
    requestedBy: string,
    revision: int,
    assessmentId: Option<string>,
    remediationId: Option<string>,
    deploymentId: Option<string>,
    error: Option<ApiError>)

  predicate ValidLink(link: Option<string>) {
    link.Some? ==> !Blank(link.value)
  }

  predicate ValidError(e: ApiError) {
    !Blank(e.code) && !Blank(e.message)
  }

  // What constructing a Job checks.
  predicate ValidJob(j: Job) {
    && !Blank(j.jobId) && !Blank(j.jobType) && !Blank(j.requestedBy)
    && 0 <= j.revision
    && ValidLink(j.assessmentId) && ValidLink(j.remediationId) && ValidLink(j.deploymentId)
    && (j.status.Failed? <==> j.error.Some?)
    && (j.error.Some? ==> ValidError(j.error.value))
  }

  datatype LifecycleError = StaleRevision | InvalidTransition | InvalidValue

  predicate Terminal(s: JobStatus) {
    s.Completed? || s.Failed? || s.Cancelled?
  }

  predicate Allowed(from: JobStatus, to: JobStatus) {
    match from
    case Queued => to.Running? || to.Failed? || to.Cancelled?
    case Running => !to.Queued?
    case WaitingReview => to.Running? || to.Failed? || to.Cancelled?
    case WaitingApproval => to.Running? || to.Failed? || to.Cancelled?
    case _ => false
  }

  // The keyword arguments of one transition.
  datatype Change = Change(
    status: JobStatus,
    currentStep: Option<JobStep>,
    assessmentId: Option<string>,
    remediationId: Option<string>,
    deploymentId: Option<string>,
    error: Option<ApiError>)

  // A write-once link: None asks for no change.
  function LinkOnce(existing: Option<string>, candidate: Option<string>): Result<Option<string>, LifecycleError> {
    if candidate.None? || candidate == existing then Success(existing)
    else if existing.Some? then Failure(InvalidTransition)
    else Success(candidate)
  }

  function Transition(job: Job, expectedRevision: int, change: Change): Result<Job, LifecycleError> {
    if expectedRevision < 0 then Failure(InvalidValue)
    else if job.revision != expectedRevision then Failure(StaleRevision)
    else if !Allowed(job.status, change.status) then Failure(InvalidTransition)
    else if !change.status.Failed? && change.error.Some? then Failure(InvalidTransition)
    else
      var assessmentId :- LinkOnce(job.assessmentId, change.assessmentId);
      var remediationId :- LinkOnce(job.remediationId, change.remediationId);
      var deploymentId :- LinkOnce(job.deploymentId, change.deploymentId);
      var next := job.(
        status := change.status,
        currentStep := if change.currentStep.Some? then change.currentStep.value else job.currentStep,
        revision := job.revision + 1,
        assessmentId := assessmentId,
        remediationId := remediationId,
        deploymentId := deploymentId,
        error := change.error);
      if ValidJob(next) then Success(next) else Failure(InvalidValue)
  }

  // next is what some transition makes of job.
  ghost predicate Follows(job: Job, next: Job) {
    exists change :: Transition(job, job.revision, change) == Success(next)
  }

  predicate Created(job: Job) {
    && job.revision == 0 && job.status.Queued?
    && job.assessmentId.None? && job.remediationId.None? && job.deploymentId.None?
  }

  predicate LinkKept(before: Option<string>, after: Option<string>) {
    before.Some? ==> after == before
  }

  // after is a state the lifecycle can still reach once before was stored.
  predicate Descends(before: Job, after: Job) {
    && after.jobId == before.jobId
    && after.jobType == before.jobType
    && after.requestedBy == before.requestedBy
    && before.revision <= after.revision
    && LinkKept(before.assessmentId, after.assessmentId)
    && LinkKept(before.remediationId, after.remediationId)
    && LinkKept(before.deploymentId, after.deploymentId)
    && (Terminal(before.status) || before.revision == after.revision ==> after == before)
  }

  lemma FollowsDescends(job: Job, next: Job)
    requires Follows(job, next)
    ensures ValidJob(next) && next.revision == job.revision + 1
    ensures !Terminal(job.status) && Descends(job, next)
  {
    var change :| Transition(job, job.revision, change) == Success(next);
  }

  // ---- the lifecycle written out ----

  // Every step from one status to the next.
  const LEGAL_STEPS: set<(JobStatus, JobStatus)> := {
    (Queued, Running), (Queued, Failed), (Queued, Cancelled),
    (Running, Running), (Running, WaitingReview), (Running, WaitingApproval),
    (Running, Completed), (Running, Failed), (Running, Cancelled),
    (WaitingReview, Running), (WaitingReview, Failed), (WaitingReview, Cancelled),
    (WaitingApproval, Running), (WaitingApproval, Failed), (WaitingApproval, Cancelled)}

  // What a stored Job may become by one update.
  predicate LegalStep(job: Job, next: Job) {
    && ValidJob(next)
    && next.jobId == job.jobId && next.jobType == job.jobType && next.requestedBy == job.requestedBy
    && next.revision == job.revision + 1
    && LinkKept(job.assessmentId, next.assessmentId)
    && LinkKept(job.remediationId, next.remediationId)
    && LinkKept(job.deploymentId, next.deploymentId)
    && (job.status, next.status) in LEGAL_STEPS
  }

  lemma AllowedExactly(from: JobStatus, to: JobStatus)
    ensures Allowed(from, to) <==> (from, to) in LEGAL_STEPS
  {
    match from {
      case Queued => case Running => case WaitingReview => case WaitingApproval =>
      case Completed => case Failed => case Cancelled =>
    }
  }

  // The transitions are exactly these steps: any step, any new links, error and current step included.
  lemma FollowsExactly(job: Job, next: Job)
    requires ValidJob(job)
    ensures Follows(job, next) <==> LegalStep(job, next)
  {
    AllowedExactly(job.status, next.status);
    hide Allowed, Blank;
    if LegalStep(job, next) {
      var change := Change(
        next.status, Some(next.currentStep), next.assessmentId, next.remediationId, next.deploymentId, next.error);
      assert Transition(job, job.revision, change) == Success(next);
    }
    if Follows(job, next) {
      var change :| Transition(job, job.revision, change) == Success(next);
      assert LegalStep(job, next);
    }
  }

  // A terminal Job is one no step leads on from.
  lemma TerminalExactly(from: JobStatus)
    ensures Terminal(from) <==> forall to :: (from, to) !in LEGAL_STEPS
  {
    if !Terminal(from) {
      assert (from, Cancelled) in LEGAL_STEPS;
    }
  }

  // One call: which error it raises, and what the keyword arguments left out keep.
  lemma TransitionOutcome(job: Job, expectedRevision: int, change: Change)
    ensures var r := Transition(job, expectedRevision, change);
      && (r == Failure(StaleRevision) <==> expectedRevision >= 0 && job.revision != expectedRevision)
      && (expectedRevision == job.revision >= 0 && (job.status, change.status) !in LEGAL_STEPS
          ==> r == Failure(InvalidTransition))
      && (r.Success? ==>
          && r.value.status == change.status && r.value.error == change.error
          && r.value.currentStep == (if change.currentStep.Some? then change.currentStep.value else job.currentStep)
          && (change.assessmentId.None? ==> r.value.assessmentId == job.assessmentId)
          && (change.assessmentId.Some? ==> r.value.assessmentId == change.assessmentId)
          && (change.remediationId.None? ==> r.value.remediationId == job.remediationId)
          && (change.remediationId.Some? ==> r.value.remediationId == change.remediationId)
          && (change.deploymentId.None? ==> r.value.deploymentId == job.deploymentId)
          && (change.deploymentId.Some? ==> r.value.deploymentId == change.deploymentId))
  {
    AllowedExactly(job.status, change.status);
    hide Allowed, ValidJob;
  }
}
