/** Every interleaving of any number of clients of the Job repository.

    A client's create or update is a read-and-validate step, which sends a conditional put, and separate
    deliveries of that put. A put once sent may be delivered never, once or many times, at any later moment
    and in any order, whatever the client was told: this covers puts that fail, puts that succeed, and puts
    that commit while reporting an error or that arrive late or twice. */
module JobRuns {
  import opened Wrappers
  import opened Jobs
  import opened JobItems
  import opened JobStore

  datatype Event =
    | SendCreate(job: Job)
    | SendUpdate(job: Job, expected: int)
    | DeliverPut(request: Request)

  // log holds, for the proofs, every Job committed under an id, oldest first.
  datatype World = World(items: Items, sent: set<Request>, log: map<string, seq<Job>>)

  const EMPTY := World(map[], {}, map[])

  function Commit(w: World, request: Request): World {
    var id := request.job.jobId;
    var past := if id in w.log then w.log[id] else [];
    w.(items := Deliver(w.items, request), log := w.log[id := past + [request.job]])
  }

  predicate Commits(w: World, e: Event) {
    e.DeliverPut? && e.request in w.sent && Passes(w.items, e.request)
  }

  function Step(w: World, e: Event): World {
    match e
    case SendCreate(job) =>
      if ValidJob(job) && Created(job) then w.(sent := w.sent + {CreateRequest(job)}) else w
    case SendUpdate(job, expected) =>
      var request := PrepareUpdate(w.items, job, expected);
      if ValidJob(job) && request.Success? then w.(sent := w.sent + {request.value}) else w
    case DeliverPut(request) =>
      if Commits(w, e) then Commit(w, request) else w
  }

  function Run(w: World, es: seq<Event>): World {
    if es == [] then w else Step(Run(w, es[..|es| - 1]), es[|es| - 1])
  }

  // A legal lifecycle history: it starts as a created Job and each entry is a transition of the one before.
  ghost predicate LegalHistory(id: string, history: seq<Job>) {
    && history != [] && Created(history[0])
    && (forall k | 0 <= k < |history| :: ValidJob(history[k]) && history[k].jobId == id && history[k].revision == k)
    && (forall k | 0 < k < |history| :: Follows(history[k - 1], history[k]))
  }

  ghost predicate SentIsValidated(w: World, request: Request) {
    && ValidJob(request.job)
    && match request
       case CreateRequest(job) => Created(job)
       case UpdateRequest(job, expected, validated) =>
         && job.jobId in w.log && 0 <= expected < |w.log[job.jobId]|
         && w.log[job.jobId][expected] == validated
         && Follows(validated, job)
  }

  // What is stored under an id is the end of its history.
  ghost predicate StoredIsLast(w: World, id: string) {
    id in w.log ==> LegalHistory(id, w.log[id]) && Stored(w.items, id) == Some(w.log[id][|w.log[id]| - 1])
  }

  ghost predicate Inv(w: World) {
    && w.items.Keys == w.log.Keys
    && (forall id :: StoredIsLast(w, id))
    && (forall request | request in w.sent :: SentIsValidated(w, request))
  }

  // Comparing the revision number compares the whole item: a sent update passes its check
  // exactly when the Job it would overwrite is the Job it was validated against.
  lemma RevisionCheckIdentifiesJob(w: World, request: Request)
    requires Inv(w) && request in w.sent && request.UpdateRequest?
    ensures Passes(w.items, request) <==> Stored(w.items, request.job.jobId) == Some(request.validated)
    ensures Passes(w.items, request) ==> |w.log[request.job.jobId]| == request.expected + 1
  {
    hide JobFromItem, Follows, RevisionIs;
    var id := request.job.jobId;
    assert SentIsValidated(w, request) && StoredIsLast(w, id);
    RevisionIsStoredRevision(w.items[id], Stored(w.items, id).value, request.expected);
  }

  lemma ExtendedHistory(id: string, history: seq<Job>, job: Job)
    requires LegalHistory(id, history) && Follows(history[|history| - 1], job)
    ensures LegalHistory(id, history + [job])
  {
    FollowsDescends(history[|history| - 1], job);
    hide Follows, ValidJob;
    var extended := history + [job];
    forall k | 0 < k < |extended| ensures Follows(extended[k - 1], extended[k]) {
      assert extended[k - 1] == history[k - 1];
    }
  }

  lemma CommitExtendsHistory(w: World, request: Request)
    requires Inv(w) && request in w.sent && Passes(w.items, request)
    ensures LegalHistory(request.job.jobId, Commit(w, request).log[request.job.jobId])
    ensures request.UpdateRequest? ==> request.job.jobId in w.log && |w.log[request.job.jobId]| == request.expected + 1
    ensures request.CreateRequest? ==> request.job.jobId !in w.log
  {
    hide JobFromItem, Follows, LegalHistory, ValidJob, RevisionIs;
    var id := request.job.jobId;
    assert SentIsValidated(w, request) && StoredIsLast(w, id);
    match request
    case CreateRequest(job) =>
      if id in w.log {
        RevisionIsStoredRevision(w.items[id], Stored(w.items, id).value, 0);
      }
      FreshHistory(job);
      assert [] + [job] == [job];
    case UpdateRequest(job, _, validated) =>
      RevisionCheckIdentifiesJob(w, request);
      ExtendedHistory(id, w.log[id], job);
  }

  lemma FreshHistory(job: Job)
    requires ValidJob(job) && Created(job)
    ensures LegalHistory(job.jobId, [job])
  {
  }

  lemma SendKeepsInv(w: World, request: Request)
    requires Inv(w) && SentIsValidated(w, request)
    ensures Inv(w.(sent := w.sent + {request}))
  {
    hide Stored, Follows, LegalHistory;
    var w' := w.(sent := w.sent + {request});
    forall id ensures StoredIsLast(w', id) {
      assert StoredIsLast(w, id);
    }
    forall r | r in w'.sent ensures SentIsValidated(w', r) {
      assert SentIsValidated(w, r);
    }
  }

  lemma PreparedIsValidated(w: World, job: Job, expected: int)
    requires Inv(w) && ValidJob(job) && PrepareUpdate(w.items, job, expected).Success?
    ensures SentIsValidated(w, PrepareUpdate(w.items, job, expected).value)
  {
    UpdateAcceptsExactlyTransitions(w.items, job, expected);
    hide JobFromItem, Follows, PrepareUpdate;
    assert StoredIsLast(w, job.jobId);
  }

  lemma CommitKeepsInv(w: World, request: Request)
    requires Inv(w) && request in w.sent && Passes(w.items, request)
    ensures Inv(Commit(w, request))
  {
    var w', id := Commit(w, request), request.job.jobId;
    hide Stored, Follows, LegalHistory, ValidJob, Passes, Created;
    assert SentIsValidated(w, request);
    DeliveredJobIsStored(w.items, request);
    CommitExtendsHistory(w, request);
    assert StoredIsLast(w', id);
    forall other ensures StoredIsLast(w', other) {
      assert StoredIsLast(w, other);
    }
    forall r | r in w'.sent ensures SentIsValidated(w', r) {
      assert SentIsValidated(w, r);
    }
  }

  lemma StepKeepsInv(w: World, e: Event)
    requires Inv(w)
    ensures Inv(Step(w, e))
  {
    match e {
      case SendCreate(job) =>
        if ValidJob(job) && Created(job) {
          SendKeepsInv(w, CreateRequest(job));
        }
      case SendUpdate(job, expected) =>
        if ValidJob(job) && PrepareUpdate(w.items, job, expected).Success? {
          PreparedIsValidated(w, job, expected);
          SendKeepsInv(w, PrepareUpdate(w.items, job, expected).value);
        }
      case DeliverPut(request) =>
        if Commits(w, e) {
          CommitKeepsInv(w, request);
        }
    }
  }

  // Safety over every run from the empty table.
  lemma {:induction false} RunKeepsInv(es: seq<Event>)
    ensures Inv(Run(EMPTY, es))
  {
    if es != [] {
      RunKeepsInv(es[..|es| - 1]);
      StepKeepsInv(Run(EMPTY, es[..|es| - 1]), es[|es| - 1]);
    }
  }

  // The number of updates a run commits under one id.
  function CommittedUpdates(es: seq<Event>, id: string): nat {
    if es == [] then 0
    else
      var before, e := es[..|es| - 1], es[|es| - 1];
      CommittedUpdates(before, id)
      + if Commits(Run(EMPTY, before), e) && e.request.UpdateRequest? && e.request.job.jobId == id then 1 else 0
  }

  lemma {:induction false} HistoryCountsUpdates(es: seq<Event>, id: string)
    ensures var w := Run(EMPTY, es);
      CommittedUpdates(es, id) == if id in w.log then |w.log[id]| - 1 else 0
  {
    if es != [] {
      var before, e := es[..|es| - 1], es[|es| - 1];
      var w := Run(EMPTY, before);
      HistoryCountsUpdates(before, id);
      RunKeepsInv(before);
      if Commits(w, e) {
        CommitExtendsHistory(w, e.request);
      }
      hide Inv, LegalHistory, Passes, PrepareUpdate, Deliver, Created, ValidJob;
    }
  }

  // Whatever is stored after any run is a decodable, legal Job whose revision counts the committed updates.
  lemma RevisionCountsCommits(es: seq<Event>, id: string)
    ensures var w := Run(EMPTY, es);
      id in w.items ==>
        && Stored(w.items, id).Some?
        && Stored(w.items, id).value.jobId == id
        && Stored(w.items, id).value.revision == CommittedUpdates(es, id)
  {
    RunKeepsInv(es);
    HistoryCountsUpdates(es, id);
    var w := Run(EMPTY, es);
    hide JobFromItem, Follows, Run;
    assert StoredIsLast(w, id);
  }

  lemma {:induction false} HistoryOnlyGrows(w: World, es: seq<Event>, id: string)
    requires id in w.log
    ensures var w' := Run(w, es); id in w'.log && w.log[id] <= w'.log[id]
  {
    if es != [] {
      HistoryOnlyGrows(w, es[..|es| - 1], id);
      hide Deliver, PrepareUpdate, Passes;
    }
  }

  lemma {:induction false} RunSplits(w: World, first: seq<Event>, later: seq<Event>)
    ensures Run(w, first + later) == Run(Run(w, first), later)
  {
    if later == [] {
      assert first + later == first;
    } else {
      var es, init := first + later, later[..|later| - 1];
      assert es[..|es| - 1] == first + init;
      RunSplits(w, first, init);
    }
  }

  lemma {:induction false} HistoryDescends(id: string, history: seq<Job>, i: nat, j: nat)
    requires LegalHistory(id, history) && i <= j < |history|
    ensures Descends(history[i], history[j])
  {
    if i < j {
      HistoryDescends(id, history, i, j - 1);
      FollowsDescends(history[j - 1], history[j]);
    }
  }

  // The history of every stored Job after every run, written out: it begins QUEUED, unlinked and at revision zero,
  // every later entry is a legal step from the one before, and it ends in what is stored.
  lemma HistoryIsLegal(es: seq<Event>, id: string)
    requires id in Run(EMPTY, es).items
    ensures var w := Run(EMPTY, es);
      && id in w.log && w.log[id] != []
      && Stored(w.items, id) == Some(w.log[id][|w.log[id]| - 1])
      && var first := w.log[id][0];
      && first.jobId == id && first.status == Queued && first.revision == 0
      && first.assessmentId == first.remediationId == first.deploymentId == None
      && forall k | 0 < k < |w.log[id]| :: LegalStep(w.log[id][k - 1], w.log[id][k])
  {
    hide JobFromItem, Follows, LegalStep, Run, ValidJob;
    RunKeepsInv(es);
    var w := Run(EMPTY, es);
    assert StoredIsLast(w, id);
    forall k | 0 < k < |w.log[id]| ensures LegalStep(w.log[id][k - 1], w.log[id][k]) {
      FollowsExactly(w.log[id][k - 1], w.log[id][k]);
    }
  }

  // Between any two moments of a run the stored Job only descends: same owner, type and id, revisions never
  // go back, links are never altered or dropped, and a terminal Job never changes again.
  lemma StoredJobDescends(first: seq<Event>, later: seq<Event>, id: string)
    requires id in Run(EMPTY, first).items
    ensures var early, late := Stored(Run(EMPTY, first).items, id), Stored(Run(EMPTY, first + later).items, id);
      early.Some? && late.Some? && Descends(early.value, late.value)
  {
    hide JobFromItem, Follows, Run, Descends, ValidJob;
    RunKeepsInv(first);
    RunKeepsInv(first + later);
    RunSplits(EMPTY, first, later);
    var w, w' := Run(EMPTY, first), Run(EMPTY, first + later);
    HistoryOnlyGrows(w, later, id);
    assert StoredIsLast(w, id) && StoredIsLast(w', id);
    HistoryDescends(id, w'.log[id], |w.log[id]| - 1, |w'.log[id]| - 1);
  }

  // A committed update found as many entries as it expected, plus one, and left one more.
  lemma CommitLengthens(es: seq<Event>, i: nat)
    requires i < |es| && Commits(Run(EMPTY, es[..i]), es[i]) && es[i].request.UpdateRequest?
    ensures var id, w, next := es[i].request.job.jobId, Run(EMPTY, es[..i]), Run(EMPTY, es[..i + 1]);
      && id in w.log && |w.log[id]| == es[i].request.expected + 1
      && id in next.log && |next.log[id]| == es[i].request.expected + 2
  {
    hide Inv, LegalHistory, Passes, Deliver;
    var w := Run(EMPTY, es[..i]);
    RunKeepsInv(es[..i]);
    CommitExtendsHistory(w, es[i].request);
    assert es[..i + 1][..i] == es[..i];
  }

  // One expected revision of one Job commits at most once in a run.
  lemma ExpectedRevisionCommitsOnce(es: seq<Event>, i: nat, j: nat)
    requires i < j < |es|
    requires Commits(Run(EMPTY, es[..i]), es[i]) && Commits(Run(EMPTY, es[..j]), es[j])
    requires es[i].request.UpdateRequest? && es[j].request.UpdateRequest?
    requires es[i].request.job.jobId == es[j].request.job.jobId
    ensures es[i].request.expected < es[j].request.expected
  {
    hide Inv, LegalHistory, Passes, Deliver, Run, Step;
    var id, next := es[i].request.job.jobId, Run(EMPTY, es[..i + 1]);
    CommitLengthens(es, i);
    CommitLengthens(es, j);
    RunKeepsInv(es[..i + 1]);
    assert es[..j] == es[..i + 1] + es[i + 1..j];
    RunSplits(EMPTY, es[..i + 1], es[i + 1..j]);
    HistoryOnlyGrows(next, es[i + 1..j], id);
  }

  // A committed update replaces exactly the Job its client validated, which legally precedes it.
  lemma CommitOverwritesValidated(es: seq<Event>, e: Event)
    requires Commits(Run(EMPTY, es), e) && e.request.UpdateRequest?
    ensures var id := e.request.job.jobId;
      && Stored(Run(EMPTY, es).items, id) == Some(e.request.validated)
      && Follows(e.request.validated, e.request.job)
      && Stored(Run(EMPTY, es + [e]).items, id) == Some(e.request.job)
  {
    RunKeepsInv(es);
    var w := Run(EMPTY, es);
    assert (es + [e])[..|es|] == es;
    assert SentIsValidated(w, e.request);
    RevisionCheckIdentifiesJob(w, e.request);
    DeliveredJobIsStored(w.items, e.request);
  }
}
