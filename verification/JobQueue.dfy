/** The background queue as a step system: cloned senders, a bounded request channel, a worker that
    drains requests into batches, a bounded result channel and a receiver that joins the worker. */
module JobQueue {
  import opened Options

  datatype Request = Request(fileId: string, audio: seq<real>)

  datatype Job = Job(id: nat, request: Request)

  datatype Outcome = Diarized(text: string) | Failed(message: string)

  datatype JobResult = JobResult(id: nat, fileId: string, outcome: Outcome)

  /** How the pipeline fares with a batch, file by file: on the chunked path, which keeps one result slot
      for each file, on the fallback path, and when a failed batch is retried. */
  datatype Attempt = Attempt(chunked: Chunked, alone: nat -> Outcome, retried: nat -> Outcome)

  datatype Chunked = AllSlots(text: nat -> string) | ChunkedError | NotChunked

  datatype Sender = Ready | Ticketed(job: Job) | Dropped

  datatype Worker =
    | Receiving | Draining(batch: seq<Job>) | Reporting(results: seq<JobResult>)
    | Finished | Abandoned | Panicked(message: string)

  datatype Receiver = Running | Closed | WorkerPanicked(message: string) | Terminal(message: string)

  datatype State = State(
    nextId: nat, senders: seq<Sender>,
    requests: seq<Job>, worker: Worker, results: seq<JobResult>,
    receiver: Receiver, receiverAlive: bool,
    accepted: seq<Job>, delivered: seq<JobResult>)

  const ID_SPACE: nat := 0x1_0000_0000_0000_0000

  ghost function Init(): State {
    State(0, [Ready], [], Receiving, [], Running, true, [], [])
  }

  // --- Batches --------------------------------------------------------------------------------

  function ResultOf(job: Job, outcome: Outcome): JobResult {
    JobResult(job.id, job.request.fileId, outcome)
  }

  /** The texts of the first n files run one after the other; nothing if one of them fails. */
  function CollectAll(n: nat, alone: nat -> Outcome): (texts: Option<seq<string>>)
    ensures texts.Some? ==> |texts.value| == n
  {
    if n == 0 then Some([])
    else
      var front := CollectAll(n - 1, alone);
      if front.Some? && alone(n - 1).Diarized? then Some(front.value + [alone(n - 1).text]) else None
  }

  /** A batch of n files: the chunked path where there is one, else file by file. */
  function RunBatch(n: nat, attempt: Attempt): (texts: Option<seq<string>>)
    ensures texts.Some? ==> |texts.value| == n
  {
    match attempt.chunked
    case AllSlots(text) => Some(seq(n, k requires 0 <= k => text(k)))
    case ChunkedError => None
    case NotChunked => CollectAll(n, attempt.alone)
  }

  /** The batch paired with its texts, or, when the batch failed, with each file's own retry. */
  function ProcessBatch(batch: seq<Job>, attempt: Attempt): seq<JobResult> {
    var texts := RunBatch(|batch|, attempt);
    if texts.Some? then Zip(batch, texts.value)
    else seq(|batch|, k requires 0 <= k < |batch| => ResultOf(batch[k], attempt.retried(k)))
  }

  /** Pairing stops at the shorter of the two. */
  function Zip(batch: seq<Job>, texts: seq<string>): (results: seq<JobResult>)
    ensures |texts| == |batch| ==> |results| == |batch|
  {
    if |batch| == 0 || |texts| == 0 then []
    else [ResultOf(batch[0], Diarized(texts[0]))] + Zip(batch[1..], texts[1..])
  }

  /** What identifies a job and its result to the caller. */
  datatype Key = Key(id: nat, fileId: string)

  ghost function JobKeys(jobs: seq<Job>): seq<Key> {
    seq(|jobs|, k requires 0 <= k < |jobs| => Key(jobs[k].id, jobs[k].request.fileId))
  }

  ghost function ResultKeys(results: seq<JobResult>): seq<Key> {
    seq(|results|, k requires 0 <= k < |results| => Key(results[k].id, results[k].fileId))
  }

  /** Every job is paired with the text at its own place. */
  lemma {:induction false} ZipAt(batch: seq<Job>, texts: seq<string>, k: nat)
    requires |texts| == |batch| && k < |batch|
    ensures k < |Zip(batch, texts)| && Zip(batch, texts)[k] == ResultOf(batch[k], Diarized(texts[k]))
  {
    if k > 0 {
      ZipAt(batch[1..], texts[1..], k - 1);
    }
  }

  ghost predicate AllSucceed(n: nat, alone: nat -> Outcome) {
    forall j: nat :: j < n ==> alone(j).Diarized?
  }

  /** Running the files one after the other gives every text, or nothing if one of them fails. */
  lemma {:induction false} CollectAllTexts(n: nat, alone: nat -> Outcome)
    ensures CollectAll(n, alone).Some? <==> AllSucceed(n, alone)
    ensures CollectAll(n, alone).Some? ==>
              forall k: nat :: k < n ==> alone(k) == Diarized(CollectAll(n, alone).value[k])
  {
    if n == 0 {
    } else {
      CollectAllTexts(n - 1, alone);
    }
  }

  /** What becomes of file k of a batch of n: its text from the chunked path where that fills every slot,
      its own outcome where there is no chunked path and every file succeeds, and else its own retry. */
  ghost function OutcomeOf(n: nat, attempt: Attempt, k: nat): Outcome {
    match attempt.chunked
    case AllSlots(text) => Diarized(text(k))
    case ChunkedError => attempt.retried(k)
    case NotChunked => if AllSucceed(n, attempt.alone) then attempt.alone(k) else attempt.retried(k)
  }

  /** A processed batch answers every job of it, in order and each with its own outcome, however the
      pipeline fared. */
  lemma BatchReportsAll(batch: seq<Job>, attempt: Attempt)
    ensures |ProcessBatch(batch, attempt)| == |batch|
    ensures forall k: nat :: k < |batch| ==>
              ProcessBatch(batch, attempt)[k]
              == JobResult(batch[k].id, batch[k].request.fileId, OutcomeOf(|batch|, attempt, k))
  {
    var texts := RunBatch(|batch|, attempt);
    CollectAllTexts(|batch|, attempt.alone);
    forall k: nat | k < |batch|
      ensures k < |ProcessBatch(batch, attempt)|
      ensures ProcessBatch(batch, attempt)[k] == ResultOf(batch[k], OutcomeOf(|batch|, attempt, k))
    {
      if texts.Some? {
        ZipAt(batch, texts.value, k);
      }
    }
  }

  lemma BatchKeepsKeys(batch: seq<Job>, attempt: Attempt)
    ensures ResultKeys(ProcessBatch(batch, attempt)) == JobKeys(batch)
  {
    BatchReportsAll(batch, attempt);
  }

  // --- Steps ----------------------------------------------------------------------------------

  datatype Step =
    | TakeTicket(i: nat, request: Request) | TrySend(i: nat) | CloneSender(i: nat) | DropSender(i: nat)
    | WorkerReceive | WorkerDrain | WorkerProcess(attempt: Attempt) | WorkerPanic(message: string)
    | WorkerReport | WorkerReportFails | WorkerNextBatch | WorkerFinish
    | ReceiverTake | ReceiverEnd | ReceiverDrop

  ghost predicate SendersGone(s: State) {
    forall i :: 0 <= i < |s.senders| ==> s.senders[i] == Dropped
  }

  /** The worker thread has ended and with it both of its channel ends. */
  ghost predicate WorkerGone(s: State) {
    s.worker == Finished || s.worker == Abandoned || s.worker.Panicked?
  }

  ghost predicate Enabled(capacity: nat, s: State, step: Step) {
    match step
    case TakeTicket(i, request) => i < |s.senders| && s.senders[i] == Ready
    case TrySend(i) => i < |s.senders| && s.senders[i].Ticketed?
    case CloneSender(i) => i < |s.senders| && s.senders[i] != Dropped
    case DropSender(i) => i < |s.senders| && s.senders[i] == Ready
    case WorkerReceive => s.worker == Receiving && s.requests != []
    case WorkerDrain => s.worker.Draining? && s.requests != []
    case WorkerProcess(_) => s.worker.Draining? && s.requests == []
    case WorkerPanic(_) => s.worker.Draining?
    case WorkerReport => s.worker.Reporting? && s.worker.results != [] && s.receiverAlive && |s.results| < capacity
    case WorkerReportFails => s.worker.Reporting? && s.worker.results != [] && !s.receiverAlive
    case WorkerNextBatch => s.worker.Reporting? && s.worker.results == []
    case WorkerFinish => s.worker == Receiving && s.requests == [] && SendersGone(s)
    case ReceiverTake => s.receiverAlive && s.receiver == Running && s.results != []
    case ReceiverEnd => s.receiverAlive && s.receiver == Running && s.results == [] && WorkerGone(s)
    case ReceiverDrop => s.receiverAlive
  }

  datatype Reply = Accepted(id: nat) | Full(request: Request) | NoWorker

  /** What try_push answers when its non-blocking send is made now. */
  ghost function TrySendReply(capacity: nat, s: State, job: Job): Reply {
    if WorkerGone(s) then NoWorker
    else if |s.requests| < capacity then Accepted(job.id)
    else Full(job.request)
  }

  /** The receiver joins the worker: a normal exit closes it, a panic is kept with its message. */
  ghost function Join(w: Worker): Receiver {
    if w.Panicked? then WorkerPanicked(w.message) else Closed
  }

  ghost function Apply(capacity: nat, s: State, step: Step): State
    requires Enabled(capacity, s, step)
  {
    match step
    case TakeTicket(i, request) =>
      s.(nextId := s.nextId + 1, senders := s.senders[i := Ticketed(Job(s.nextId % ID_SPACE, request))])
    case TrySend(i) =>
      var job := s.senders[i].job;
      var idle := s.(senders := s.senders[i := Ready]);
      if TrySendReply(capacity, s, job).Accepted?
      then idle.(requests := s.requests + [job], accepted := s.accepted + [job])
      else idle
    case CloneSender(i) => s.(senders := s.senders + [Ready])
    case DropSender(i) => s.(senders := s.senders[i := Dropped])
    case WorkerReceive => s.(requests := s.requests[1..], worker := Draining([s.requests[0]]))
    case WorkerDrain => s.(requests := s.requests[1..], worker := Draining(s.worker.batch + [s.requests[0]]))
    case WorkerProcess(attempt) => s.(worker := Reporting(ProcessBatch(s.worker.batch, attempt)))
    case WorkerPanic(message) => s.(worker := Panicked(message))
    case WorkerReport => s.(worker := Reporting(s.worker.results[1..]), results := s.results + [s.worker.results[0]])
    case WorkerReportFails => s.(worker := Abandoned)
    case WorkerNextBatch => s.(worker := Receiving)
    case WorkerFinish => s.(worker := Finished)
    case ReceiverTake => s.(results := s.results[1..], delivered := s.delivered + [s.results[0]])
    case ReceiverEnd => s.(receiver := Join(s.worker))
    case ReceiverDrop => s.(receiverAlive := false)
  }

  ghost predicate Run(capacity: nat, s: State, steps: seq<Step>, t: State)
    decreases |steps|
  {
    if |steps| == 0 then s == t
    else Enabled(capacity, s, steps[0]) && Run(capacity, Apply(capacity, s, steps[0]), steps[1..], t)
  }

  ghost predicate Reachable(capacity: nat, s: State) {
    exists steps :: Run(capacity, Init(), steps, s)
  }

  // --- Conservation and order -----------------------------------------------------------------

  ghost function InWorker(w: Worker): seq<Key> {
    match w
    case Draining(batch) => JobKeys(batch)
    case Reporting(results) => ResultKeys(results)
    case Receiving => []
    case Finished => []
    case Abandoned => []
    case Panicked(_) => []
  }

  /** No job has been dropped on the floor by a worker that died or gave up. */
  ghost predicate Intact(s: State) {
    s.worker != Abandoned && !s.worker.Panicked?
  }

  /** All accepted jobs in the order of acceptance: first the delivered ones, then those in the
      result channel, those the worker has, and those in the request channel. */
  ghost predicate InOrder(s: State) {
    var reported := ResultKeys(s.delivered) + ResultKeys(s.results);
    if Intact(s) then JobKeys(s.accepted) == reported + InWorker(s.worker) + JobKeys(s.requests)
    else reported <= JobKeys(s.accepted)
  }

  ghost predicate Ends(s: State) {
    && (s.worker == Finished ==> SendersGone(s) && s.requests == [])
    && (s.worker == Abandoned ==> !s.receiverAlive)
    && (s.worker.Draining? ==> s.worker.batch != [])
    && (s.receiver != Running ==>
          s.results == [] && WorkerGone(s) && s.worker != Abandoned && s.receiver == Join(s.worker))
  }

  lemma JobKeysAppend(x: seq<Job>, y: seq<Job>)
    ensures JobKeys(x + y) == JobKeys(x) + JobKeys(y)
  {
  }

  lemma ResultKeysAppend(x: seq<JobResult>, y: seq<JobResult>)
    ensures ResultKeys(x + y) == ResultKeys(x) + ResultKeys(y)
  {
  }

  lemma JobKeysFirst(x: seq<Job>)
    requires x != []
    ensures JobKeys(x) == JobKeys([x[0]]) + JobKeys(x[1..])
  {
  }

  lemma ResultKeysFirst(x: seq<JobResult>)
    requires x != []
    ensures ResultKeys(x) == ResultKeys([x[0]]) + ResultKeys(x[1..])
  {
  }

  lemma WorkerStepKeepsOrder(capacity: nat, s: State, step: Step)
    requires Enabled(capacity, s, step) && InOrder(s)
    requires step.WorkerReceive? || step.WorkerDrain? || step.WorkerProcess? || step.WorkerReport? ||
             step.WorkerNextBatch?
    ensures InOrder(Apply(capacity, s, step))
  {
    var t := Apply(capacity, s, step);
    match step
    case WorkerReceive => JobKeysFirst(s.requests);
    case WorkerDrain => JobKeysFirst(s.requests); JobKeysAppend(s.worker.batch, [s.requests[0]]);
    case WorkerProcess(attempt) => BatchKeepsKeys(s.worker.batch, attempt);
    case WorkerReport => ResultKeysFirst(s.worker.results); ResultKeysAppend(s.results, [s.worker.results[0]]);
    case WorkerNextBatch =>
  }

  lemma StepKeepsOrder(capacity: nat, s: State, step: Step)
    requires Enabled(capacity, s, step) && Ends(s) && InOrder(s)
    ensures InOrder(Apply(capacity, s, step))
  {
    match step
    case TrySend(i) =>
      var job := s.senders[i].job;
      JobKeysAppend(s.requests, [job]);
      JobKeysAppend(s.accepted, [job]);
    case ReceiverTake =>
      ResultKeysFirst(s.results);
      ResultKeysAppend(s.delivered, [s.results[0]]);
      assert ResultKeys(s.delivered + [s.results[0]]) + ResultKeys(s.results[1..])
          == ResultKeys(s.delivered) + ResultKeys(s.results);
    case WorkerReceive => WorkerStepKeepsOrder(capacity, s, step);
    case WorkerDrain => WorkerStepKeepsOrder(capacity, s, step);
    case WorkerProcess(_) => WorkerStepKeepsOrder(capacity, s, step);
    case WorkerReport => WorkerStepKeepsOrder(capacity, s, step);
    case WorkerNextBatch => WorkerStepKeepsOrder(capacity, s, step);
    case _ =>
  }

  lemma StepKeepsEnds(capacity: nat, s: State, step: Step)
    requires Enabled(capacity, s, step) && Ends(s)
    ensures Ends(Apply(capacity, s, step))
  {
  }

  // --- Answers over a run -----------------------------------------------------------------------

  /** The answers made in a step: those of a whole batch, when the worker processes one. */
  ghost function Made(s: State, step: Step): seq<JobResult>
    requires step.WorkerProcess? ==> s.worker.Draining?
  {
    if step.WorkerProcess? then ProcessBatch(s.worker.batch, step.attempt) else []
  }

  /** The answers made in a run, batch after batch. */
  ghost function Answers(capacity: nat, s: State, steps: seq<Step>, t: State): seq<JobResult>
    requires Run(capacity, s, steps, t)
    decreases |steps|
  {
    if |steps| == 0 then []
    else Made(s, steps[0]) + Answers(capacity, Apply(capacity, s, steps[0]), steps[1..], t)
  }

  /** Answers that were made and not dropped: delivered, in the result channel, or still with the worker. */
  ghost function Kept(s: State): seq<JobResult> {
    s.delivered + s.results + if s.worker.Reporting? then s.worker.results else []
  }

  lemma StepKeepsAnswers(capacity: nat, s: State, step: Step)
    requires Enabled(capacity, s, step) && !step.WorkerReportFails?
    ensures Kept(Apply(capacity, s, step)) == Kept(s) + Made(s, step)
  {
    match step
    case WorkerReport =>
      assert s.results + s.worker.results == s.results + [s.worker.results[0]] + s.worker.results[1..];
    case ReceiverTake =>
      assert s.delivered + s.results == s.delivered + [s.results[0]] + s.results[1..];
    case _ =>
  }

  /** A worker that has given up makes no more answers. */
  lemma {:induction false} AbandonedIsFinal(capacity: nat, s: State, steps: seq<Step>, t: State)
    requires Run(capacity, s, steps, t) && s.worker == Abandoned
    ensures t.worker == Abandoned && Kept(t) == Kept(s) && Answers(capacity, s, steps, t) == []
    decreases |steps|
  {
    if |steps| == 0 {
    } else {
      StepKeepsAnswers(capacity, s, steps[0]);
      AbandonedIsFinal(capacity, Apply(capacity, s, steps[0]), steps[1..], t);
    }
  }

  lemma MadeInTurn(kept: seq<JobResult>, made: seq<JobResult>, more: seq<JobResult>)
    ensures kept + made + more == kept + (made + more)
  {
  }

  /** Over any run the queue passes the worker's answers on as they are and in order, from the first on;
      it passes on all of them unless the worker gave up because the receiver was gone. */
  lemma {:induction false} AnswersPassUnchanged(capacity: nat, s: State, steps: seq<Step>, t: State)
    requires Run(capacity, s, steps, t)
    ensures Kept(t) <= Kept(s) + Answers(capacity, s, steps, t)
    ensures t.worker != Abandoned ==> Kept(t) == Kept(s) + Answers(capacity, s, steps, t)
    decreases |steps|
  {
    if |steps| == 0 {
    } else {
      var next := Apply(capacity, s, steps[0]);
      if steps[0].WorkerReportFails? {
        AbandonedIsFinal(capacity, next, steps[1..], t);
      } else {
        StepKeepsAnswers(capacity, s, steps[0]);
        AnswersPassUnchanged(capacity, next, steps[1..], t);
        MadeInTurn(Kept(s), Made(s, steps[0]), Answers(capacity, next, steps[1..], t));
      }
    }
  }

  // --- Job numbers ----------------------------------------------------------------------------

  /** While fewer than 2^64 tickets were taken: every number given out is below the counter, and no
      two accepted or pending jobs share one. */
  ghost predicate IdsUnique(s: State) {
    && (forall k :: 0 <= k < |s.accepted| ==> s.accepted[k].id < s.nextId)
    && (forall i :: 0 <= i < |s.senders| && s.senders[i].Ticketed? ==> s.senders[i].job.id < s.nextId)
    && (forall j, k :: 0 <= j < k < |s.accepted| ==> s.accepted[j].id != s.accepted[k].id)
    && (forall i, k :: 0 <= i < |s.senders| && s.senders[i].Ticketed? && 0 <= k < |s.accepted| ==>
          s.senders[i].job.id != s.accepted[k].id)
    && (forall i, j :: 0 <= i < j < |s.senders| && s.senders[i].Ticketed? && s.senders[j].Ticketed? ==>
          s.senders[i].job.id != s.senders[j].job.id)
  }

  lemma TicketKeepsIds(capacity: nat, s: State, i: nat, request: Request)
    requires Enabled(capacity, s, TakeTicket(i, request)) && IdsUnique(s) && s.nextId < ID_SPACE
    ensures IdsUnique(Apply(capacity, s, TakeTicket(i, request)))
  {
    assert s.nextId % ID_SPACE == s.nextId;
  }

  lemma SendKeepsIds(capacity: nat, s: State, i: nat)
    requires Enabled(capacity, s, TrySend(i)) && IdsUnique(s)
    ensures IdsUnique(Apply(capacity, s, TrySend(i)))
  {
  }

  /** No other step makes a ticket or accepts a job. */
  lemma SameTicketsKeepIds(s: State, t: State)
    requires IdsUnique(s) && t.nextId == s.nextId && t.accepted == s.accepted
    requires forall i :: 0 <= i < |t.senders| && t.senders[i].Ticketed? ==>
               i < |s.senders| && t.senders[i] == s.senders[i]
    ensures IdsUnique(t)
  {
  }

  lemma StepKeepsIds(capacity: nat, s: State, step: Step)
    requires Enabled(capacity, s, step) && (s.nextId <= ID_SPACE ==> IdsUnique(s))
    ensures Apply(capacity, s, step).nextId <= ID_SPACE ==> IdsUnique(Apply(capacity, s, step))
  {
    if s.nextId < ID_SPACE || !step.TakeTicket? {
      if step.TakeTicket? {
        TicketKeepsIds(capacity, s, step.i, step.request);
      } else if step.TrySend? && s.nextId <= ID_SPACE {
        SendKeepsIds(capacity, s, step.i);
      } else if s.nextId <= ID_SPACE {
        SameTicketsKeepIds(s, Apply(capacity, s, step));
      }
    }
  }

  // --- Whole runs -----------------------------------------------------------------------------

  ghost predicate Inv(s: State) {
    InOrder(s) && Ends(s) && (s.nextId <= ID_SPACE ==> IdsUnique(s))
  }

  lemma {:induction false} RunKeepsInv(capacity: nat, s: State, steps: seq<Step>, t: State)
    requires Inv(s) && Run(capacity, s, steps, t)
    ensures Inv(t)
    decreases |steps|
  {
    if |steps| == 0 {
    } else {
      StepKeepsOrder(capacity, s, steps[0]);
      StepKeepsEnds(capacity, s, steps[0]);
      StepKeepsIds(capacity, s, steps[0]);
      RunKeepsInv(capacity, Apply(capacity, s, steps[0]), steps[1..], t);
    }
  }

  lemma ReachableInv(capacity: nat, s: State)
    requires Reachable(capacity, s)
    ensures Inv(s)
  {
    var steps :| Run(capacity, Init(), steps, s);
    RunKeepsInv(capacity, Init(), steps, s);
  }

  /** First in, first out, whatever happens: the delivered results answer the first accepted jobs,
      in their order, under their numbers and file names. */
  lemma DeliveredInOrder(capacity: nat, s: State)
    requires Reachable(capacity, s)
    ensures ResultKeys(s.delivered) <= JobKeys(s.accepted)
    ensures Intact(s) ==>
              JobKeys(s.accepted)
              == ResultKeys(s.delivered) + ResultKeys(s.results) + InWorker(s.worker) + JobKeys(s.requests)
  {
    ReachableInv(capacity, s);
  }

  /** The receiver reports the queue closed only after every accepted job was delivered and no
      sender is left to submit another. */
  lemma ClosedMeansAllDelivered(capacity: nat, s: State)
    requires Reachable(capacity, s) && s.receiver == Closed
    ensures ResultKeys(s.delivered) == JobKeys(s.accepted) && SendersGone(s)
  {
    ReachableInv(capacity, s);
  }

  /** A receiver that saw the end of the results knows how the worker ended, with the message of its panic. */
  lemma EndIsExplained(capacity: nat, s: State)
    requires Reachable(capacity, s) && s.receiver != Running
    ensures s.worker == Finished || s.worker.Panicked?
    ensures s.worker == Finished <==> s.receiver == Closed
    ensures s.worker.Panicked? <==> s.receiver.WorkerPanicked?
    ensures s.worker.Panicked? ==> s.receiver.message == s.worker.message
  {
    ReachableInv(capacity, s);
  }

  /** Accepted jobs have different numbers, whichever clones submitted them. */
  lemma AcceptedIdsDiffer(capacity: nat, s: State, j: nat, k: nat)
    requires Reachable(capacity, s) && s.nextId <= ID_SPACE && j < k < |s.accepted|
    ensures s.accepted[j].id != s.accepted[k].id
  {
    ReachableInv(capacity, s);
  }

  /** A receiver that has left Running never changes again. */
  lemma {:induction false} TerminalStatesAbsorb(capacity: nat, s: State, steps: seq<Step>, t: State)
    requires s.receiver != Running && Run(capacity, s, steps, t)
    ensures t.receiver == s.receiver && t.delivered == s.delivered
    decreases |steps|
  {
    if |steps| == 0 {
    } else {
      TerminalStatesAbsorb(capacity, Apply(capacity, s, steps[0]), steps[1..], t);
    }
  }

  // --- One push, from its ticket to its answer ---------------------------------------------------

  /** The steps are of other senders, the worker and the receiver. */
  ghost predicate OfOthers(i: nat, steps: seq<Step>) {
    forall k :: 0 <= k < |steps| ==> steps[k] != TrySend(i)
  }

  /** Whatever the others do meanwhile, a sender keeps the ticket it took. */
  lemma {:induction false} TicketKept(capacity: nat, s: State, i: nat, steps: seq<Step>, t: State)
    requires Run(capacity, s, steps, t) && OfOthers(i, steps) && i < |s.senders| && s.senders[i].Ticketed?
    ensures i < |t.senders| && t.senders[i] == s.senders[i]
    decreases |steps|
  {
    if |steps| == 0 {
    } else {
      assert steps[0] != TrySend(i);
      var next := Apply(capacity, s, steps[0]);
      assert next.senders[i] == s.senders[i];
      forall k | 0 <= k < |steps| - 1
        ensures steps[1..][k] != TrySend(i)
      {
        assert steps[1..][k] == steps[k + 1];
      }
      TicketKept(capacity, next, i, steps[1..], t);
    }
  }

  /** A push answered at t after its ticket was taken at s, with any steps of others in between: a full
      queue hands the request back, a queue whose worker is gone drops it, and either way only the sender
      is ready again; otherwise the job joins the end of the request channel under its ticket's number. */
  lemma PushAnswered(capacity: nat, s: State, i: nat, request: Request, between: seq<Step>, t: State)
    requires i < |s.senders| && s.senders[i] == Ready
    requires Run(capacity, Apply(capacity, s, TakeTicket(i, request)), between, t) && OfOthers(i, between)
    ensures Enabled(capacity, t, TrySend(i))
    ensures var job, after := Job(s.nextId % ID_SPACE, request), Apply(capacity, t, TrySend(i));
            && t.senders[i] == Ticketed(job)
            && match TrySendReply(capacity, t, job)
               case Full(r) => r == request && |t.requests| >= capacity && after == t.(senders := t.senders[i := Ready])
               case NoWorker => WorkerGone(t) && after == t.(senders := t.senders[i := Ready])
               case Accepted(id) => !WorkerGone(t) && |t.requests| < capacity && id == job.id
                                    && after.requests == t.requests + [job] && after.accepted == t.accepted + [job]
  {
    TicketKept(capacity, Apply(capacity, s, TakeTicket(i, request)), i, between, t);
  }

  // --- Ticket numbers over a run -------------------------------------------------------------------

  ghost function TicketsTaken(steps: seq<Step>): nat {
    if |steps| == 0 then 0 else (if steps[0].TakeTicket? then 1 else 0) + TicketsTaken(steps[1..])
  }

  lemma {:induction false} CounterCounts(capacity: nat, s: State, steps: seq<Step>, t: State)
    requires Run(capacity, s, steps, t)
    ensures t.nextId == s.nextId + TicketsTaken(steps)
    decreases |steps|
  {
    if |steps| == 0 {
    } else {
      CounterCounts(capacity, Apply(capacity, s, steps[0]), steps[1..], t);
    }
  }

  /** Two tickets of one run carry the same number exactly if a multiple of 2^64 tickets were taken from
      the first of them up to the second. */
  lemma TicketsCollideIff(capacity: nat, s: State, i: nat, r: Request, between: seq<Step>, t: State, j: nat, q: Request)
    requires Enabled(capacity, s, TakeTicket(i, r)) && Enabled(capacity, t, TakeTicket(j, q))
    requires Run(capacity, Apply(capacity, s, TakeTicket(i, r)), between, t)
    ensures var first, second := Apply(capacity, s, TakeTicket(i, r)), Apply(capacity, t, TakeTicket(j, q));
            first.senders[i].job.id == second.senders[j].job.id <==> (TicketsTaken(between) + 1) % ID_SPACE == 0
  {
    CounterCounts(capacity, Apply(capacity, s, TakeTicket(i, r)), between, t);
    SameRemainder(s.nextId, t.nextId);
  }

  lemma SameRemainder(m: nat, n: nat)
    requires m <= n
    ensures m % ID_SPACE == n % ID_SPACE <==> (n - m) % ID_SPACE == 0
  {
  }

  // --- Winding down ---------------------------------------------------------------------------

  ghost function WorkerWeight(w: Worker): nat {
    match w
    case Receiving => 1
    case Draining(batch) => 1 + 5 * |batch|
    case Reporting(results) => 2 + 3 * |results|
    case Finished => 0
    case Abandoned => 0
    case Panicked(_) => 0
  }

  ghost function Pending(s: State): nat {
    6 * |s.requests| + WorkerWeight(s.worker) + |s.results|
    + (if s.receiver == Running then 1 else 0) + if s.receiverAlive then 1 else 0
  }

  /** Once the last sender is gone every step, of worker or receiver, reduces what is pending. */
  lemma StepReducesPending(capacity: nat, s: State, step: Step)
    requires Ends(s) && SendersGone(s) && Enabled(capacity, s, step)
    ensures SendersGone(Apply(capacity, s, step)) && Pending(Apply(capacity, s, step)) < Pending(s)
  {
    match step
    case WorkerProcess(attempt) =>
      BatchReportsAll(s.worker.batch, attempt);
      assert |ResultKeys(ProcessBatch(s.worker.batch, attempt))| == |s.worker.batch|;
    case _ =>
  }

  lemma {:induction false} WindingDownIsBounded(capacity: nat, s: State, steps: seq<Step>, t: State)
    requires Ends(s) && SendersGone(s) && Run(capacity, s, steps, t)
    ensures |steps| <= Pending(s)
    decreases |steps|
  {
    if |steps| == 0 {
    } else {
      StepKeepsEnds(capacity, s, steps[0]);
      StepReducesPending(capacity, s, steps[0]);
      WindingDownIsBounded(capacity, Apply(capacity, s, steps[0]), steps[1..], t);
    }
  }

  /** A receiver that is still listening is never left without an answer to come. */
  lemma NeverStuck(capacity: nat, s: State) returns (step: Step)
    requires capacity > 0 && Reachable(capacity, s) && SendersGone(s) && s.receiverAlive && s.receiver == Running
    ensures Enabled(capacity, s, step) && !step.ReceiverDrop?
  {
    ReachableInv(capacity, s);
    step :=
      if s.results != [] then ReceiverTake
      else match s.worker
        case Receiving => if s.requests != [] then WorkerReceive else WorkerFinish
        case Draining(batch) =>
          if s.requests != [] then WorkerDrain
          else WorkerProcess(Attempt(AllSlots(_ => ""), _ => Diarized(""), _ => Diarized("")))
        case Reporting(results) => if results != [] then WorkerReport else WorkerNextBatch
        case Finished => ReceiverEnd
        case Abandoned => ReceiverEnd
        case Panicked(_) => ReceiverEnd;
  }

  /** A run that can go no further, its senders and nobody else having hung up and no panic having
      struck, has delivered every accepted job and reported the queue closed. */
  lemma SettledMeansAllDelivered(capacity: nat, s: State)
    requires capacity > 0 && Reachable(capacity, s) && SendersGone(s) && s.receiverAlive && !s.worker.Panicked?
    requires forall step: Step :: !step.ReceiverDrop? ==> !Enabled(capacity, s, step)
    ensures s.receiver == Closed && ResultKeys(s.delivered) == JobKeys(s.accepted)
  {
    if s.receiver == Running {
      var step := NeverStuck(capacity, s);
    }
    ReachableInv(capacity, s);
  }
}
