/** The receiving end of the queue as the objects its caller holds: the receiver, which joins the
    worker once, and the iterator that drains it. */
module QueueReceiver {
  import opened JobQueue
  import opened Options

  /** What a blocking receive on the result channel comes back with. */
  datatype Message = Got(result: JobResult) | Hangup

  /** What a non-blocking receive comes back with. */
  datatype TryMessage = Ready(result: JobResult) | Empty | Gone

  /** How joining the worker thread ends. */
  datatype JoinOutcome = Exited | PanickedWith(message: string)

  datatype QueueError = ErrClosed | ErrWorkerPanicked(message: string) | ErrTerminal(message: string)

  datatype Received = Ok(result: JobResult) | Err(error: QueueError)

  datatype TryReceived = TryOk(result: Option<JobResult>) | TryErr(error: QueueError)

  function ErrorOf(r: Receiver): QueueError
    requires r != Running
  {
    match r
    case Closed => ErrClosed
    case WorkerPanicked(message) => ErrWorkerPanicked(message)
    case Terminal(message) => ErrTerminal(message)
  }

  /** The error says how the queue ended, with the message of a panic. */
  ghost predicate Explains(e: QueueError, r: Receiver) {
    && (e == ErrClosed <==> r == Closed)
    && (e.ErrWorkerPanicked? <==> r.WorkerPanicked?) && (r.WorkerPanicked? ==> e == ErrWorkerPanicked(r.message))
    && (r.Terminal? ==> e == ErrTerminal(r.message))
  }

  /** The state a hangup leads to. */
  function Joined(join: JoinOutcome): Receiver {
    match join
    case Exited => Closed
    case PanickedWith(message) => WorkerPanicked(message)
  }

  class ResultReceiver {
    var state: Receiver
    var worker: Option<JoinOutcome>

    /** The thread handle is kept until the end of the run was seen. */
    ghost predicate Valid()
      reads this
    {
      state == Running ==> worker.Some?
    }

    constructor (join: JoinOutcome)
      ensures Valid() && state == Running && worker == Some(join)
    {
      state, worker := Running, Some(join);
    }

    method Recv(message: Message) returns (r: Received)
      requires Valid()
      modifies this
      ensures Valid()
      ensures old(state) != Running ==> r == Err(ErrorOf(old(state))) && state == old(state) && worker == old(worker)
      ensures old(state) == Running && message.Got? ==>
              r == Ok(message.result) && state == Running && worker == old(worker)
      ensures old(state) == Running && message == Hangup ==>
                worker == None && state == Joined(old(worker).value) && r == Err(ErrorOf(state))
      ensures r.Err? ==> Explains(r.error, state) && state != Running
    {
      if state != Running {
        return Err(ErrorOf(state));
      }
      match message {
        case Got(result) => r := Ok(result);
        case Hangup =>
          var error := JoinTerminalWorker();
          r := Err(error);
      }
    }

    method TryRecv(message: TryMessage) returns (r: TryReceived)
      requires Valid()
      modifies this
      ensures Valid()
      ensures old(state) != Running ==> r == TryErr(ErrorOf(old(state))) && state == old(state) && worker == old(worker)
      ensures old(state) == Running && message != Gone ==> state == Running && worker == old(worker)
      ensures old(state) == Running && message.Ready? ==> r == TryOk(Some(message.result))
      ensures old(state) == Running && message == Empty ==> r == TryOk(None)
      ensures old(state) == Running && message == Gone ==>
                worker == None && state == Joined(old(worker).value) && r == TryErr(ErrorOf(state))
      ensures r.TryErr? ==> Explains(r.error, state) && state != Running
    {
      if state != Running {
        return TryErr(ErrorOf(state));
      }
      match message {
        case Ready(result) => r := TryOk(Some(result));
        case Empty => r := TryOk(None);
        case Gone =>
          var error := JoinTerminalWorker();
          r := TryErr(error);
      }
    }

    method JoinTerminalWorker() returns (error: QueueError)
      requires Valid() && state == Running
      modifies this
      ensures Valid() && worker == None
      ensures state == Joined(old(worker).value) && error == ErrorOf(state)
    {
      var join := worker.value;
      worker := None;
      match join {
        case Exited =>
          state := Closed;
          error := ErrClosed;
        case PanickedWith(message) =>
          state := WorkerPanicked(message);
          error := ErrWorkerPanicked(message);
      }
    }
  }

  /** The iterator as a value: the receiver's state and whether a terminal error was yielded. */
  datatype IterState = IterState(receiver: Receiver, yielded: bool)

  /** One call of the iterator: an item, if there is one, and the state after it. */
  function IterNext(s: IterState, join: JoinOutcome, message: Message): (IterState, Option<Received>) {
    if s.yielded then (s, None)
    else if s.receiver == Running && message.Got? then (s, Some(Ok(message.result)))
    else
      var receiver := if s.receiver == Running then Joined(join) else s.receiver;
      if receiver == Closed then (IterState(receiver, false), None)
      else (IterState(receiver, true), Some(Err(ErrorOf(receiver))))
  }

  class ResultIterator {
    const receiver: ResultReceiver
    const join: JoinOutcome
    var yieldedTerminalError: bool

    ghost predicate Valid()
      reads this, receiver
    {
      receiver.Valid() && (receiver.state == Running ==> receiver.worker == Some(join))
    }

    ghost function View(): IterState
      reads this, receiver
    {
      IterState(receiver.state, yieldedTerminalError)
    }

    constructor (receiver: ResultReceiver, join: JoinOutcome)
      requires receiver.Valid() && receiver.worker == Some(join)
      ensures Valid() && this.receiver == receiver && this.join == join && View() == IterState(receiver.state, false)
    {
      this.receiver, this.join, yieldedTerminalError := receiver, join, false;
    }

    method Next(message: Message) returns (item: Option<Received>)
      requires Valid()
      modifies this, receiver
      ensures Valid() && (View(), item) == IterNext(old(View()), join, message)
    {
      if yieldedTerminalError {
        return None;
      }
      var r := receiver.Recv(message);
      match r {
        case Ok(_) => item := Some(r);
        case Err(error) =>
          if error == ErrClosed {
            item := None;
          } else {
            yieldedTerminalError := true;
            item := Some(r);
          }
      }
    }
  }

  /** The items of a whole iteration, one per call. */
  function Items(s: IterState, join: JoinOutcome, messages: seq<Message>): (items: seq<Option<Received>>)
    ensures |items| == |messages|
    decreases |messages|
  {
    if |messages| == 0 then []
    else
      var (after, item) := IterNext(s, join, messages[0]);
      [item] + Items(after, join, messages[1..])
  }

  /** The iteration has ended: a terminal error was yielded, or the queue is closed. */
  predicate Ended(s: IterState) {
    s.yielded || s.receiver == Closed
  }

  lemma {:induction false} NothingAfterEnd(s: IterState, join: JoinOutcome, messages: seq<Message>, k: nat)
    requires Ended(s) && k < |messages|
    ensures Items(s, join, messages)[k] == None
    decreases |messages|
  {
    var (after, item) := IterNext(s, join, messages[0]);
    if k == 0 {
    } else {
      NothingAfterEnd(after, join, messages[1..], k - 1);
    }
  }

  /** However the iterator is driven, it yields at most one error, and nothing after that error or
      after the first end. */
  lemma {:induction false} EndsAfterOneError(s: IterState, join: JoinOutcome, messages: seq<Message>, j: nat, k: nat)
    requires s.receiver == Running && j < k < |messages|
    requires Items(s, join, messages)[j] == None || Items(s, join, messages)[j].value.Err?
    ensures Items(s, join, messages)[k] == None
    decreases |messages|
  {
    var (after, item) := IterNext(s, join, messages[0]);
    if Ended(after) {
      NothingAfterEnd(after, join, messages[1..], k - 1);
    } else if j > 0 {
      EndsAfterOneError(after, join, messages[1..], j - 1, k - 1);
    }
  }

  /** An iterator made after the error was seen yields that error first, and nothing more. */
  lemma ErrorIsRepeated(r: Receiver, join: JoinOutcome, messages: seq<Message>, k: nat)
    requires r != Running && r != Closed && k < |messages|
    ensures var item := Items(IterState(r, false), join, messages)[k];
            if k > 0 then item == None else item.Some? && item.value.Err? && Explains(item.value.error, r)
  {
    var (after, item) := IterNext(IterState(r, false), join, messages[0]);
    if k > 0 {
      NothingAfterEnd(after, join, messages[1..], k - 1);
    }
  }

  // --- The iterator on a run of the queue ------------------------------------------------------

  /** What the receives of a run came back with, one for each take and one for the hangup. */
  ghost function MessagesOf(capacity: nat, s: State, steps: seq<Step>, t: State): seq<Message>
    requires Run(capacity, s, steps, t)
    decreases |steps|
  {
    if |steps| == 0 then []
    else
      var next := Apply(capacity, s, steps[0]);
      (match steps[0]
       case ReceiverTake => [Got(s.results[0])]
       case ReceiverEnd => [Hangup]
       case _ => []) + MessagesOf(capacity, next, steps[1..], t)
  }

  ghost function Arrivals(results: seq<JobResult>): (messages: seq<Message>)
    ensures |messages| == |results|
  {
    seq(|results|, k requires 0 <= k < |results| => Got(results[k]))
  }

  lemma DeliveredFrom(before: seq<JobResult>, first: JobResult, after: seq<JobResult>)
    requires before + [first] <= after
    ensures Arrivals(after[|before|..]) == [Got(first)] + Arrivals(after[|before| + 1..])
  {
    assert after[|before|] == first;
    assert after[|before|..] == [first] + after[|before| + 1..];
  }

  /** They are the delivered results in order, and then the hangup if the receiver has seen it. */
  lemma {:induction false} MessagesAreDelivered(capacity: nat, s: State, steps: seq<Step>, t: State)
    requires Run(capacity, s, steps, t) && s.receiver == Running
    ensures s.delivered <= t.delivered
    ensures MessagesOf(capacity, s, steps, t)
         == Arrivals(t.delivered[|s.delivered|..]) + if t.receiver == Running then [] else [Hangup]
    decreases |steps|
  {
    if |steps| == 0 {
    } else {
      var next := Apply(capacity, s, steps[0]);
      if next.receiver == Running {
        MessagesAreDelivered(capacity, next, steps[1..], t);
        if steps[0].ReceiverTake? {
          DeliveredFrom(s.delivered, s.results[0], t.delivered);
        }
      } else {
        TerminalStatesAbsorb(capacity, next, steps[1..], t);
        NothingReceived(capacity, next, steps[1..], t);
      }
    }
  }

  lemma {:induction false} NothingReceived(capacity: nat, s: State, steps: seq<Step>, t: State)
    requires Run(capacity, s, steps, t) && s.receiver != Running
    ensures MessagesOf(capacity, s, steps, t) == []
    decreases |steps|
  {
    if |steps| == 0 {
    } else {
      NothingReceived(capacity, Apply(capacity, s, steps[0]), steps[1..], t);
    }
  }

  /** Results are yielded as they come, and the hangup ends the iteration or yields the panic. */
  lemma {:induction false} YieldsResults(join: JoinOutcome, results: seq<JobResult>, hangup: bool, k: nat)
    requires k < |results| + if hangup then 1 else 0
    ensures var messages := Arrivals(results) + if hangup then [Hangup] else [];
            Items(IterState(Running, false), join, messages)[k] ==
              if k < |results| then Some(Ok(results[k]))
              else if join == Exited then None
              else Some(Err(ErrWorkerPanicked(join.message)))
    decreases |results|
  {
    var messages := Arrivals(results) + if hangup then [Hangup] else [];
    if |results| != 0 && k > 0 {
      assert messages[1..] == Arrivals(results[1..]) + if hangup then [Hangup] else [];
      YieldsResults(join, results[1..], hangup, k - 1);
    }
  }

  /** Over any run of the queue the iterator yields the results of the accepted jobs, first accepted
      first; when the queue is closed it has yielded one for every accepted job and then ends, and when the
      worker panicked the last item says with what message. */
  lemma IteratorYieldsAccepted(capacity: nat, steps: seq<Step>, t: State, join: JoinOutcome)
    requires Run(capacity, Init(), steps, t) && (t.receiver != Running ==> t.receiver == Joined(join))
    ensures var items := Items(IterState(Running, false), join, MessagesOf(capacity, Init(), steps, t));
            && |t.delivered| <= |items| && |t.delivered| <= |t.accepted|
            && (forall k :: 0 <= k < |t.delivered| ==>
                  items[k] == Some(Ok(t.delivered[k]))
                  && t.delivered[k].id == t.accepted[k].id && t.delivered[k].fileId == t.accepted[k].request.fileId)
            && (t.receiver == Closed ==>
                  |t.delivered| == |t.accepted| && |items| == |t.accepted| + 1 && items[|t.accepted|] == None)
            && (t.receiver.WorkerPanicked? ==>
                  && |items| == |t.delivered| + 1
                  && items[|t.delivered|] == Some(Err(ErrWorkerPanicked(t.receiver.message))))
  {
    MessagesAreDelivered(capacity, Init(), steps, t);
    DeliveredInOrder(capacity, t);
    assert t.delivered[0..] == t.delivered;
    var ended := t.receiver != Running;
    forall k: nat | k < |t.delivered|
      ensures Items(IterState(Running, false), join, MessagesOf(capacity, Init(), steps, t))[k]
           == Some(Ok(t.delivered[k]))
      ensures t.delivered[k].id == t.accepted[k].id && t.delivered[k].fileId == t.accepted[k].request.fileId
    {
      YieldsResults(join, t.delivered, ended, k);
      assert ResultKeys(t.delivered)[k] == JobKeys(t.accepted)[k];
    }
    if t.receiver == Closed {
      ClosedMeansAllDelivered(capacity, t);
      assert |ResultKeys(t.delivered)| == |JobKeys(t.accepted)|;
    }
    if ended {
      YieldsResults(join, t.delivered, true, |t.delivered|);
    }
  }
}
