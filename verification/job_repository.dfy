/** Job persistence: the stored item, the revision-checked repository, and its runs under concurrency. */
module JobItems {
  import opened Wrappers
  import opened Jobs

  // The attribute names of a stored item.
  datatype Field =
    | JobId | JobType | Status | CurrentStep | RequestedBy | Revision
    | AssessmentId | RemediationId | DeploymentId | Error | Code | Message

  datatype Attr =
    | Str(text: string)
    | Int(n: int)
    | Number(r: real)
    | Bool(b: bool)
    | Null
    | Entries(entries: map<Field, Attr>)

  type Item = map<Field, Attr>

  function StatusText(s: JobStatus): string {
    match s
    case Queued => "QUEUED"
    case Running => "RUNNING"
    case WaitingReview => "WAITING_REVIEW"
    case WaitingApproval => "WAITING_APPROVAL"
    case Completed => "COMPLETED"
    case Failed => "FAILED"
    case Cancelled => "CANCELLED"
  }

  function StatusOf(text: string): Option<JobStatus> {
    if text == "QUEUED" then Some(Queued)
    else if text == "RUNNING" then Some(Running)
    else if text == "WAITING_REVIEW" then Some(WaitingReview)
    else if text == "WAITING_APPROVAL" then Some(WaitingApproval)
    else if text == "COMPLETED" then Some(Completed)
    else if text == "FAILED" then Some(Failed)
    else if text == "CANCELLED" then Some(Cancelled)
    else None
  }

  function StepText(s: JobStep): string {
    match s
    case LoadIac => "LOAD_IAC"
    case LoadPolicyProfile => "LOAD_POLICY_PROFILE"
    case BuildEffectiveRules => "BUILD_EFFECTIVE_RULES"
    case LoadPolicyEvidence => "LOAD_POLICY_EVIDENCE"
    case Assess => "ASSESS"
    case PolicyReview => "POLICY_REVIEW"
    case GenerateFindings => "GENERATE_FINDINGS"
    case GenerateReport => "GENERATE_REPORT"
    case GenerateRemediation => "GENERATE_REMEDIATION"
    case CreatePr => "CREATE_PR"
    case CiValidation => "CI_VALIDATION"
    case AwsDiscovery => "AWS_DISCOVERY"
    case PreDeployValidation => "PRE_DEPLOY_VALIDATION"
    case TerraformPlan => "TERRAFORM_PLAN"
    case Apply => "APPLY"
    case PostDeployVerification => "POST_DEPLOY_VERIFICATION"
  }

  function EarlyStepOf(text: string): Option<JobStep> {
    if text == "LOAD_IAC" then Some(LoadIac)
    else if text == "LOAD_POLICY_PROFILE" then Some(LoadPolicyProfile)
    else if text == "BUILD_EFFECTIVE_RULES" then Some(BuildEffectiveRules)
    else if text == "LOAD_POLICY_EVIDENCE" then Some(LoadPolicyEvidence)
    else if text == "ASSESS" then Some(Assess)
    else if text == "POLICY_REVIEW" then Some(PolicyReview)
    else if text == "GENERATE_FINDINGS" then Some(GenerateFindings)
    else if text == "GENERATE_REPORT" then Some(GenerateReport)
    else None
  }

  function LateStepOf(text: string): Option<JobStep> {
    if text == "GENERATE_REMEDIATION" then Some(GenerateRemediation)
    else if text == "CREATE_PR" then Some(CreatePr)
    else if text == "CI_VALIDATION" then Some(CiValidation)
    else if text == "AWS_DISCOVERY" then Some(AwsDiscovery)
    else if text == "PRE_DEPLOY_VALIDATION" then Some(PreDeployValidation)
    else if text == "TERRAFORM_PLAN" then Some(TerraformPlan)
    else if text == "APPLY" then Some(Apply)
    else if text == "POST_DEPLOY_VERIFICATION" then Some(PostDeployVerification)
    else None
  }

  function StepOf(text: string): Option<JobStep> {
    if EarlyStepOf(text).Some? then EarlyStepOf(text) else LateStepOf(text)
  }

  function WithLink(item: Item, name: Field, link: Option<string>): Item {
    if link.Some? then item[name := Str(link.value)] else item
  }

  function RequiredFields(job: Job): Item {
    map[
      JobId := Str(job.jobId),
      JobType := Str(job.jobType),
      Status := Str(StatusText(job.status)),
      CurrentStep := Str(StepText(job.currentStep)),
      RequestedBy := Str(job.requestedBy),
      Revision := Int(job.revision)]
  }

  // _item_from_job: absent links and errors leave no attribute behind.
  function ItemFromJob(job: Job): Item {
    var item := WithLink(RequiredFields(job), AssessmentId, job.assessmentId);
    var item := WithLink(item, RemediationId, job.remediationId);
    var item := WithLink(item, DeploymentId, job.deploymentId);
    match job.error
    case None => item
    case Some(e) => item[Error := Entries(map[Code := Str(e.code), Message := Str(e.message)])]
  }

  // The table hands every number back as a decimal.
  function FromWire(item: Item): Item {
    map name | name in item :: if item[name].Int? then Number(item[name].n as real) else item[name]
  }

  function TextField(item: Item, name: Field): Option<string> {
    if name in item && item[name].Str? then Some(item[name].text) else None
  }

  function Get(item: Item, name: Field): Attr {
    if name in item then item[name] else Null
  }

  function LinkField(item: Item, name: Field): Option<Option<string>> {
    match Get(item, name)
    case Null => Some(None)
    case Str(text) => Some(Some(text))
    case _ => None
  }

  function ErrorField(item: Item): Option<Option<ApiError>> {
    match Get(item, Error)
    case Null => Some(None)
    case Entries(entries) =>
      var code, message := TextField(entries, Code), TextField(entries, Message);
      if code.Some? && message.Some? then Some(Some(ApiError(code.value, message.value))) else None
    case _ => None
  }

  function StoredRevision(a: Attr): Option<int> {
    match a
    case Int(n) => Some(n)
    case Number(r) => if r == r.Floor as real then Some(r.Floor) else None
    case _ => None
  }

  // _job_from_item: None stands for StoredDataError.
  function JobFromItem(item: Item): (r: Option<Job>)
    ensures r.Some? ==> ValidJob(r.value)
  {
    var jobId, jobType := TextField(item, JobId), TextField(item, JobType);
    var status, step := TextField(item, Status), TextField(item, CurrentStep);
    var requestedBy, revision := TextField(item, RequestedBy), StoredRevision(Get(item, Revision));
    var assessmentId := LinkField(item, AssessmentId);
    var remediationId := LinkField(item, RemediationId);
    var deploymentId := LinkField(item, DeploymentId);
    var error := ErrorField(item);
    if jobId.None? || jobType.None? || status.None? || step.None? || requestedBy.None? || revision.None?
      || assessmentId.None? || remediationId.None? || deploymentId.None? || error.None?
      || StatusOf(status.value).None? || StepOf(step.value).None?
    then None
    else
      var job := Job(
        jobId.value, jobType.value, StatusOf(status.value).value, StepOf(step.value).value,
        requestedBy.value, revision.value, assessmentId.value, remediationId.value, deploymentId.value, error.value);
      if ValidJob(job) then Some(job) else None
  }

  lemma StatusRoundTrip(s: JobStatus)
    ensures StatusOf(StatusText(s)) == Some(s)
  {
    match s {
      case Queued => case Running => case WaitingReview => case WaitingApproval =>
      case Completed => case Failed => case Cancelled =>
    }
  }

  predicate IsEarly(s: JobStep) {
    s.LoadIac? || s.LoadPolicyProfile? || s.BuildEffectiveRules? || s.LoadPolicyEvidence?
    || s.Assess? || s.PolicyReview? || s.GenerateFindings? || s.GenerateReport?
  }

  lemma EarlyStepRoundTrip(s: JobStep)
    requires IsEarly(s)
    ensures StepOf(StepText(s)) == Some(s)
  {
    match s {
      case LoadIac => case LoadPolicyProfile => case BuildEffectiveRules => case LoadPolicyEvidence =>
      case Assess => case PolicyReview => case GenerateFindings => case GenerateReport =>
    }
  }

  lemma RemediationStepRoundTrip(s: JobStep)
    requires s.GenerateRemediation? || s.CreatePr? || s.CiValidation? || s.AwsDiscovery?
    ensures StepOf(StepText(s)) == Some(s)
  {
    match s {
      case GenerateRemediation => case CreatePr => case CiValidation => case AwsDiscovery =>
    }
  }

  lemma DeploymentStepRoundTrip(s: JobStep)
    requires s.PreDeployValidation? || s.TerraformPlan? || s.Apply? || s.PostDeployVerification?
    ensures StepOf(StepText(s)) == Some(s)
  {
    match s {
      case PreDeployValidation => case TerraformPlan => case Apply => case PostDeployVerification =>
    }
  }

  lemma StepRoundTrip(s: JobStep)
    ensures StepOf(StepText(s)) == Some(s)
  {
    hide StepOf, StepText;
    match s {
      case GenerateRemediation | CreatePr | CiValidation | AwsDiscovery =>
        RemediationStepRoundTrip(s);
      case PreDeployValidation | TerraformPlan | Apply | PostDeployVerification =>
        DeploymentStepRoundTrip(s);
      case _ =>
        EarlyStepRoundTrip(s);
    }
  }

  // Storing a Job and decoding what the table returns gives the Job back.
  lemma StoredJobDecodes(job: Job)
    requires ValidJob(job)
    ensures JobFromItem(FromWire(ItemFromJob(job))) == Some(job)
    ensures JobFromItem(ItemFromJob(job)) == Some(job)
  {
    StatusRoundTrip(job.status);
    StepRoundTrip(job.currentStep);
    RequiredFieldsStored(job);
    OptionalFieldsStored(job);
    WireKeepsFields(ItemFromJob(job));
  }

  lemma RequiredFieldsStored(job: Job)
    ensures var item := ItemFromJob(job);
      && TextField(item, JobId) == Some(job.jobId) && TextField(item, JobType) == Some(job.jobType)
      && TextField(item, Status) == Some(StatusText(job.status))
      && TextField(item, CurrentStep) == Some(StepText(job.currentStep))
      && TextField(item, RequestedBy) == Some(job.requestedBy)
      && Get(item, Revision) == Int(job.revision)
  {
    hide StatusText, StepText;
  }

  lemma OptionalFieldsStored(job: Job)
    ensures var item := ItemFromJob(job);
      && LinkField(item, AssessmentId) == Some(job.assessmentId)
      && LinkField(item, RemediationId) == Some(job.remediationId)
      && LinkField(item, DeploymentId) == Some(job.deploymentId)
      && ErrorField(item) == Some(job.error)
  {
    hide StatusText, StepText;
  }

  // ---- what an item says ----

  const STATUS_NAMES: map<JobStatus, string> := map[
    Queued := "QUEUED", Running := "RUNNING",
    WaitingReview := "WAITING_REVIEW", WaitingApproval := "WAITING_APPROVAL",
    Completed := "COMPLETED", Failed := "FAILED", Cancelled := "CANCELLED"]

  const STEP_NAMES: map<JobStep, string> := EARLY_NAMES + LATE_NAMES

  const EARLY_NAMES: map<JobStep, string> := map[
    LoadIac := "LOAD_IAC", LoadPolicyProfile := "LOAD_POLICY_PROFILE",
    BuildEffectiveRules := "BUILD_EFFECTIVE_RULES", LoadPolicyEvidence := "LOAD_POLICY_EVIDENCE",
    Assess := "ASSESS", PolicyReview := "POLICY_REVIEW",
    GenerateFindings := "GENERATE_FINDINGS", GenerateReport := "GENERATE_REPORT"]

  const LATE_NAMES: map<JobStep, string> := map[
    GenerateRemediation := "GENERATE_REMEDIATION", CreatePr := "CREATE_PR",
    CiValidation := "CI_VALIDATION", AwsDiscovery := "AWS_DISCOVERY",
    PreDeployValidation := "PRE_DEPLOY_VALIDATION", TerraformPlan := "TERRAFORM_PLAN",
    Apply := "APPLY", PostDeployVerification := "POST_DEPLOY_VERIFICATION"]

  predicate Holds(item: Item, name: Field, text: string) {
    name in item && item[name] == Str(text)
  }

  predicate HoldsLink(item: Item, name: Field, link: Option<string>) {
    if link.Some? then Holds(item, name, link.value) else name !in item || item[name] == Null
  }

  predicate HoldsError(item: Item, error: Option<ApiError>) {
    if error.None? then Error !in item || item[Error] == Null
    else
      && Error in item && item[Error].Entries?
      && Holds(item[Error].entries, Code, error.value.code)
      && Holds(item[Error].entries, Message, error.value.message)
  }

  // The whole number, written as one or as the decimal the table makes of it.
  predicate HoldsRevision(item: Item, revision: int) {
    Revision in item && item[Revision] in {Int(revision), Number(revision as real)}
  }

  // An item that says what a Job is, attribute by attribute.
  predicate SaysJob(item: Item, job: Job) {
    && Holds(item, JobId, job.jobId) && Holds(item, JobType, job.jobType)
    && job.status in STATUS_NAMES && Holds(item, Status, STATUS_NAMES[job.status])
    && job.currentStep in STEP_NAMES && Holds(item, CurrentStep, STEP_NAMES[job.currentStep])
    && Holds(item, RequestedBy, job.requestedBy) && HoldsRevision(item, job.revision)
    && HoldsLink(item, AssessmentId, job.assessmentId)
    && HoldsLink(item, RemediationId, job.remediationId)
    && HoldsLink(item, DeploymentId, job.deploymentId)
    && HoldsError(item, job.error)
  }

  lemma StatusNamed(s: JobStatus, text: string)
    ensures StatusOf(text) == Some(s) <==> s in STATUS_NAMES && text == STATUS_NAMES[s]
  {
    match s {
      case Queued => case Running => case WaitingReview => case WaitingApproval =>
      case Completed => case Failed => case Cancelled =>
    }
  }

  lemma StepNamed(s: JobStep, text: string)
    ensures StepOf(text) == Some(s) <==> s in STEP_NAMES && text == STEP_NAMES[s]
  {
    hide EarlyStepOf, LateStepOf, StepText, STEP_NAMES;
    StepNames(s);
    StepRoundTrip(s);
    EarlyStepNamed(s, text);
    LateStepNamed(s, text);
  }

  lemma StepNames(s: JobStep)
    ensures s in STEP_NAMES && STEP_NAMES[s] == StepText(s)
  {
    hide EARLY_NAMES, LATE_NAMES, StepText;
    EarlyNames(s);
    LateNames(s);
  }

  lemma EarlyNames(s: JobStep)
    ensures IsEarly(s) ==> s in EARLY_NAMES && EARLY_NAMES[s] == StepText(s)
  {
    match s {
      case LoadIac => case LoadPolicyProfile => case BuildEffectiveRules => case LoadPolicyEvidence =>
      case Assess => case PolicyReview => case GenerateFindings => case GenerateReport =>
      case _ =>
    }
  }

  lemma LateNames(s: JobStep)
    ensures if IsEarly(s) then s !in LATE_NAMES else s in LATE_NAMES && LATE_NAMES[s] == StepText(s)
  {
    match s {
      case GenerateRemediation => case CreatePr => case CiValidation => case AwsDiscovery =>
      case PreDeployValidation => case TerraformPlan => case Apply => case PostDeployVerification =>
      case _ =>
    }
  }

  lemma EarlyStepNamed(s: JobStep, text: string)
    ensures EarlyStepOf(text) == Some(s) ==> text == StepText(s)
  {
  }

  lemma LateStepNamed(s: JobStep, text: string)
    ensures LateStepOf(text) == Some(s) ==> text == StepText(s)
  {
  }

  lemma RevisionRead(item: Item, revision: int)
    ensures StoredRevision(Get(item, Revision)) == Some(revision) <==> HoldsRevision(item, revision)
  {
  }

  lemma OptionalRead(item: Item, name: Field, link: Option<string>, error: Option<ApiError>)
    ensures LinkField(item, name) == Some(link) <==> HoldsLink(item, name, link)
    ensures ErrorField(item) == Some(error) <==> HoldsError(item, error)
  {
  }

  lemma TextRead(item: Item, name: Field, text: string)
    ensures TextField(item, name) == Some(text) <==> Holds(item, name, text)
  {
  }

  // An item decodes to a Job exactly when it says that Job and the Job is valid: attributes that are missing, of
  // another type, or unknown as a status or step are refused, and so is a revision that is not whole.
  lemma DecodesExactly(item: Item, job: Job)
    ensures JobFromItem(item) == Some(job) <==> SaysJob(item, job) && ValidJob(job)
  {
    TextRead(item, JobId, job.jobId);
    TextRead(item, JobType, job.jobType);
    TextRead(item, RequestedBy, job.requestedBy);
    RevisionRead(item, job.revision);
    OptionalRead(item, AssessmentId, job.assessmentId, job.error);
    OptionalRead(item, RemediationId, job.remediationId, job.error);
    OptionalRead(item, DeploymentId, job.deploymentId, job.error);
    NamesRead(item, job);
    hide TextField, LinkField, ErrorField, StoredRevision, StatusOf, StepOf, StepText, ValidJob,
      Holds, HoldsLink, HoldsError, HoldsRevision, STATUS_NAMES, STEP_NAMES;
  }

  // So what is stored says the Job, whichever way the number comes back, and links and errors that are not set leave no
  // attribute behind.
  lemma StoredItemSaysJob(job: Job)
    requires ValidJob(job)
    ensures SaysJob(ItemFromJob(job), job) && SaysJob(FromWire(ItemFromJob(job)), job)
    ensures ItemFromJob(job).Keys
      == {JobId, JobType, Status, CurrentStep, RequestedBy, Revision}
        + (if job.assessmentId.Some? then {AssessmentId} else {})
        + (if job.remediationId.Some? then {RemediationId} else {})
        + (if job.deploymentId.Some? then {DeploymentId} else {})
        + (if job.error.Some? then {Error} else {})
  {
    hide JobFromItem, SaysJob, ValidJob, StatusText, StepText, FromWire;
    StoredJobDecodes(job);
    DecodesExactly(ItemFromJob(job), job);
    DecodesExactly(FromWire(ItemFromJob(job)), job);
  }

  lemma NamesRead(item: Item, job: Job)
    ensures (exists text :: TextField(item, Status) == Some(text) && StatusOf(text) == Some(job.status))
      <==> job.status in STATUS_NAMES && Holds(item, Status, STATUS_NAMES[job.status])
    ensures (exists text :: TextField(item, CurrentStep) == Some(text) && StepOf(text) == Some(job.currentStep))
      <==> job.currentStep in STEP_NAMES && Holds(item, CurrentStep, STEP_NAMES[job.currentStep])
  {
    hide StatusOf, StepOf, StepText, STEP_NAMES;
    if Status in item && item[Status].Str? {
      StatusNamed(job.status, item[Status].text);
    }
    if CurrentStep in item && item[CurrentStep].Str? {
      StepNamed(job.currentStep, item[CurrentStep].text);
    }
    StepRoundTrip(job.currentStep);
    StepNames(job.currentStep);
    StatusNamed(job.status, if job.status in STATUS_NAMES then STATUS_NAMES[job.status] else "");
  }

  lemma WireKeepsFields(item: Item)
    ensures forall name :: TextField(FromWire(item), name) == TextField(item, name)
    ensures forall name :: LinkField(FromWire(item), name) == LinkField(item, name)
    ensures ErrorField(FromWire(item)) == ErrorField(item)
    ensures StoredRevision(Get(FromWire(item), Revision)) == StoredRevision(Get(item, Revision))
  {
  }
}

/** The revision-checked repository: every update is a read and a later conditional put. */
module JobStore {
  import opened Wrappers
  import opened Jobs
  import opened JobItems

  type Items = map<string, Item>

  datatype RepositoryError =
    | InvalidArgument | InvalidMutation | DuplicateJob | RevisionConflict | StoredData | ProviderFailed

  // A conditional put. An update remembers, for the proofs only, the Job it was validated against.
  datatype Request =
    | CreateRequest(job: Job)
    | UpdateRequest(job: Job, expected: int, validated: Job)

  // What the provider does to one put: answers, loses the request, or commits and loses the answer.
  datatype Fault = NoFault | LostRequest | LostReply

  function ReadJob(items: Items, jobId: string): Result<Option<Job>, RepositoryError> {
    if jobId !in items then Success(None)
    else
      match JobFromItem(items[jobId])
      case None => Failure(StoredData)
      case Some(job) => Success(Some(job))
  }

  function Stored(items: Items, jobId: string): Option<Job> {
    if jobId in items then JobFromItem(items[jobId]) else None
  }

  // The fields of a Job, as the arguments update_job passes to the lifecycle.
  function AsChange(job: Job): Change {
    Change(job.status, Some(job.currentStep), job.assessmentId, job.remediationId, job.deploymentId, job.error)
  }

  function PrepareUpdate(items: Items, job: Job, expected: int): Result<Request, RepositoryError> {
    if expected < 0 then Failure(InvalidArgument)
    else if job.revision != expected + 1 then Failure(InvalidMutation)
    else
      var current :- ReadJob(items, job.jobId);
      if current.None? || current.value.revision != expected then Failure(RevisionConflict)
      else if Transition(current.value, expected, AsChange(job)) != Success(job) then Failure(InvalidMutation)
      else Success(UpdateRequest(job, expected, current.value))
  }

  predicate RevisionIs(item: Item, expected: int) {
    match Get(item, Revision)
    case Int(n) => n == expected
    case Number(r) => r == expected as real
    case _ => false
  }

  // The put's condition, which the table evaluates atomically with the write.
  predicate Passes(items: Items, request: Request) {
    match request
    case CreateRequest(job) => !(job.jobId in items && JobId in items[job.jobId])
    case UpdateRequest(job, expected, _) => job.jobId in items && RevisionIs(items[job.jobId], expected)
  }

  function Deliver(items: Items, request: Request): Items {
    if Passes(items, request)
    then items[request.job.jobId := FromWire(ItemFromJob(request.job))]
    else items
  }

  lemma RevisionIsStoredRevision(item: Item, job: Job, expected: int)
    requires JobFromItem(item) == Some(job)
    ensures RevisionIs(item, expected) <==> job.revision == expected
    ensures JobId in item
  {
  }

  lemma DeliveredJobIsStored(items: Items, request: Request)
    requires ValidJob(request.job)
    ensures Stored(Deliver(items, request), request.job.jobId)
      == if Passes(items, request) then Some(request.job) else Stored(items, request.job.jobId)
    ensures forall other | other != request.job.jobId :: Stored(Deliver(items, request), other) == Stored(items, other)
    ensures request.CreateRequest? && Stored(items, request.job.jobId).Some? ==> !Passes(items, request)
  {
    StoredJobDecodes(request.job);
    hide JobFromItem, ItemFromJob, FromWire;
    if request.CreateRequest? && Stored(items, request.job.jobId).Some? {
      RevisionIsStoredRevision(items[request.job.jobId], Stored(items, request.job.jobId).value, 0);
    }
  }

  // update_job accepts a Job exactly when some transition of the stored Job produces it.
  lemma UpdateAcceptsExactlyTransitions(items: Items, job: Job, expected: int)
    requires ValidJob(job)
    ensures PrepareUpdate(items, job, expected).Success?
      <==> exists current ::
        Stored(items, job.jobId) == Some(current) && current.revision == expected && Follows(current, job)
    ensures PrepareUpdate(items, job, expected).Success?
      ==> PrepareUpdate(items, job, expected) == Success(UpdateRequest(job, expected, Stored(items, job.jobId).value))
  {
    if Stored(items, job.jobId).Some? {
      var current := Stored(items, job.jobId).value;
      if current.revision == expected && Follows(current, job) {
        ChangeFromResult(current, job);
      }
    }
  }

  // The same with the lifecycle written out.
  lemma UpdateAcceptsExactlySteps(items: Items, job: Job, expected: int)
    requires ValidJob(job)
    ensures PrepareUpdate(items, job, expected).Success?
      <==> exists current ::
        Stored(items, job.jobId) == Some(current) && current.revision == expected && LegalStep(current, job)
    ensures PrepareUpdate(items, job, expected).Success?
      ==> PrepareUpdate(items, job, expected) == Success(UpdateRequest(job, expected, Stored(items, job.jobId).value))
  {
    hide Follows, LegalStep, Transition;
    UpdateAcceptsExactlyTransitions(items, job, expected);
    if Stored(items, job.jobId).Some? {
      FollowsExactly(Stored(items, job.jobId).value, job);
    }
  }

  lemma ChangeFromResult(current: Job, job: Job)
    requires ValidJob(current)
    ensures Follows(current, job) ==> Transition(current, current.revision, AsChange(job)) == Success(job)
  {
    if Follows(current, job) {
      var change :| Transition(current, current.revision, change) == Success(job);
    }
  }

  class DynamoDbJobRepository {
    var items: Items

    constructor ()
      ensures items == map[]
    {
      items := map[];
    }

    // put_item: the condition and the write are one atomic step of the table.
    method PutItem(request: Request, fault: Fault) returns (r: Result<(), RepositoryError>)
      modifies this
      ensures items == if fault.LostRequest? then old(items) else Deliver(old(items), request)
      ensures r.Success? <==> fault.NoFault? && old(Passes(items, request))
      ensures r.Failure? && fault.NoFault?
        ==> r.error == if request.CreateRequest? then DuplicateJob else RevisionConflict
      ensures r.Failure? && !fault.NoFault? ==> r.error == ProviderFailed
    {
      var passes := Passes(items, request);
      if !fault.LostRequest? && passes {
        items := items[request.job.jobId := FromWire(ItemFromJob(request.job))];
      }
      if !fault.NoFault? {
        return Failure(ProviderFailed);
      }
      if !passes {
        return Failure(if request.CreateRequest? then DuplicateJob else RevisionConflict);
      }
      return Success(());
    }

    // A new Job is stored only if it is unlinked, QUEUED and absent; otherwise nothing changes.
    method CreateJob(job: Job, fault: Fault) returns (r: Result<(), RepositoryError>)
      requires ValidJob(job)
      modifies this
      ensures r.Success? ==> old(Stored(items, job.jobId)).None? && Stored(items, job.jobId) == Some(job)
      ensures r.Success? ==>
        && job.status == Queued && job.revision == 0
        && job.assessmentId == job.remediationId == job.deploymentId == None
      ensures job.status == Queued && job.revision == 0
        && job.assessmentId == job.remediationId == job.deploymentId == None
        && !fault.LostRequest? && job.jobId !in old(items)
        ==> Stored(items, job.jobId) == Some(job) && (r.Success? <==> fault.NoFault?)
      ensures r.Failure? && r.error != ProviderFailed ==> items == old(items)
      ensures forall other | other != job.jobId :: Stored(items, other) == old(Stored(items, other))
      ensures !Created(job) ==> r == Failure(InvalidMutation)
      ensures Created(job) ==>
        items == if fault.LostRequest? then old(items) else Deliver(old(items), CreateRequest(job))
      ensures old(Stored(items, job.jobId)).Some? ==> items == old(items) && r.Failure?
    {
      if !Created(job) {
        return Failure(InvalidMutation);
      }
      DeliveredJobIsStored(items, CreateRequest(job));
      hide JobFromItem, ItemFromJob, FromWire;
      r := PutItem(CreateRequest(job), fault);
    }

    method GetJob(jobId: string, readFails: bool) returns (r: Result<Option<Job>, RepositoryError>)
      ensures r.Success? ==> r.value == Stored(items, jobId) && (r.value.None? <==> jobId !in items)
      ensures r.Failure? ==> r.error == if readFails then ProviderFailed else StoredData
      ensures r.Failure? <==> readFails || (jobId in items && Stored(items, jobId).None?)
    {
      if readFails {
        return Failure(ProviderFailed);
      }
      return ReadJob(items, jobId);
    }

    // update_job up to its put: read, compare revisions, replay the lifecycle.
    method ValidateUpdate(job: Job, expected: int, readFails: bool) returns (r: Result<Request, RepositoryError>)
      requires ValidJob(job)
      ensures !readFails ==> r == PrepareUpdate(items, job, expected)
      ensures readFails ==>
        r == Failure(
          if expected < 0 then InvalidArgument
          else if job.revision != expected + 1 then InvalidMutation
          else ProviderFailed)
    {
      if expected < 0 {
        return Failure(InvalidArgument);
      }
      if job.revision != expected + 1 {
        return Failure(InvalidMutation);
      }
      var read := GetJob(job.jobId, readFails);
      if read.Failure? {
        return Failure(read.error);
      }
      var current := read.value;
      if current.None? || current.value.revision != expected {
        return Failure(RevisionConflict);
      }
      var candidate := Transition(current.value, expected, AsChange(job));
      if candidate != Success(job) {
        return Failure(InvalidMutation);
      }
      return Success(UpdateRequest(job, expected, current.value));
    }

    // update_job with no other client between its read and its put.
    method UpdateJob(job: Job, expected: int, readFails: bool, fault: Fault) returns (r: Result<(), RepositoryError>)
      requires ValidJob(job)
      modifies this
      ensures r.Success? <==>
        && !readFails && fault.NoFault?
        && old(Stored(items, job.jobId)).Some?
        && old(Stored(items, job.jobId)).value.revision == expected
        && LegalStep(old(Stored(items, job.jobId)).value, job)
      ensures r.Success? ==> Stored(items, job.jobId) == Some(job)
      ensures expected < 0 ==> r == Failure(InvalidArgument)
      ensures expected >= 0 && job.revision != expected + 1 ==> r == Failure(InvalidMutation)
      ensures expected >= 0 && job.revision == expected + 1 ==>
        && (readFails ==> r == Failure(ProviderFailed))
        && (!readFails && job.jobId !in old(items) ==> r == Failure(RevisionConflict))
        && (!readFails && job.jobId in old(items) && old(Stored(items, job.jobId)).None? ==> r == Failure(StoredData))
        && (!readFails && old(Stored(items, job.jobId)).Some? ==>
            var current := old(Stored(items, job.jobId)).value;
            && (current.revision != expected ==> r == Failure(RevisionConflict))
            && (current.revision == expected && !LegalStep(current, job) ==> r == Failure(InvalidMutation))
            && (current.revision == expected && LegalStep(current, job) && !fault.NoFault? ==>
                r == Failure(ProviderFailed)))
      ensures r.Failure? && r.error != ProviderFailed ==> items == old(items)
      ensures forall other | other != job.jobId :: Stored(items, other) == old(Stored(items, other))
    {
      hide JobFromItem, ItemFromJob, FromWire, Transition, LegalStep;
      UpdateAcceptsExactlySteps(items, job, expected);
      var request := ValidateUpdate(job, expected, readFails);
      if request.Failure? {
        return Failure(request.error);
      }
      DeliveredJobIsStored(items, request.value);
      RevisionIsStoredRevision(items[job.jobId], Stored(items, job.jobId).value, expected);
      r := PutItem(request.value, fault);
    }
  }
}
