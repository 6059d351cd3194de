/** AuthenticationInterceptor.swift: what everybody is answered.  The serial queue does, in order, exactly what
    completed and refused refreshes have ordered, and every other answer follows from what its own
    operation found. */
module AuthenticationAnswers {
  import opened Collections
  import opened Authentication

  /** What a block on the serial queue is there to do. */
  datatype Task =
    | Call(credential: Credential)
    | AdaptAgain(op: nat)
    | FailAdapt(op: nat, error: AuthenticationError)
    | AnswerRetry(op: nat, answer: RetryAnswer)

  function AgainAll(ops: seq<nat>): (r: seq<Task>)
    ensures |r| == |ops| && forall i | 0 <= i < |ops| :: r[i] == AdaptAgain(ops[i])
  {
    seq(|ops|, i requires 0 <= i < |ops| => AdaptAgain(ops[i]))
  }

  function FailAll(ops: seq<nat>, error: AuthenticationError): (r: seq<Task>)
    ensures |r| == |ops| && forall i | 0 <= i < |ops| :: r[i] == FailAdapt(ops[i], error)
  {
    seq(|ops|, i requires 0 <= i < |ops| => FailAdapt(ops[i], error))
  }

  function RetryAll(ops: seq<nat>, answer: RetryAnswer): (r: seq<Task>)
    ensures |r| == |ops| && forall i | 0 <= i < |ops| :: r[i] == AnswerRetry(ops[i], answer)
  {
    seq(|ops|, i requires 0 <= i < |ops| => AnswerRetry(ops[i], answer))
  }

  function BlockTasks(b: Block): seq<Task> {
    match b
    case StartRefresh(c) => [Call(c)]
    case DrainSuccess(adapts, retries) => AgainAll(adapts) + RetryAll(retries, Retry)
    case DrainFailure(e, adapts, retries) => FailAll(adapts, e) + RetryAll(retries, DoNotRetryWithError(e))
  }

  function QueueTasks(queue: seq<Block>): seq<Task> {
    if queue == [] then [] else BlockTasks(queue[0]) + QueueTasks(queue[1..])
  }

  // ---------- What is ordered ----------

  /** The step takes the lock for an operation that cannot go on without a refresh. */
  predicate NeedsRefresh(w: World, e: Event) {
    e.RetryLocks? || (DecidedBy(w, e).Some? && w.shared.credential.Some? && e.reading.requiresRefresh)
  }

  /** ... while none is under way: it starts one, or is refused. */
  predicate AsksForRefresh(w: World, e: Event) {
    !w.shared.isRefreshing && NeedsRefresh(w, e)
  }

  predicate IsRefused(window: Option<RefreshWindow>, w: World, e: Event) {
    AsksForRefresh(w, e) && IsExcessive(window, w.shared.refreshTimestamps, e.reading.checked)
  }

  predicate IsStarted(window: Option<RefreshWindow>, w: World, e: Event) {
    AsksForRefresh(w, e) && !IsExcessive(window, w.shared.refreshTimestamps, e.reading.checked)
  }

  /** Who waits when the step is through with its own operation */
  function RetriesWaiting(w: World, e: Event): seq<nat> {
    w.shared.requestsToRetry + (if e.RetryLocks? then [e.op] else [])
  }

  function AdaptsWaiting(w: World, e: Event): seq<nat> {
    w.shared.adaptOperations + (if DecidedBy(w, e).Some? then [DecidedBy(w, e).value] else [])
  }

  /** The credential to refresh: the one a retry has read, or the current one */
  function CredentialToRefresh(w: World, e: Event): Credential
    requires Enabled(w, e) && NeedsRefresh(w, e)
  {
    if e.RetryLocks? then w.retriesInHand[e.op].value else w.shared.credential.value
  }

  /** A refresh that succeeds orders all waiting requests to be adapted again and all waiting retries to
      retry; one that fails or is refused orders all of them to be failed with its error. */
  function OrderedBy(window: Option<RefreshWindow>, w: World, e: Event): seq<Task>
    requires Enabled(w, e)
  {
    match e
    case RefreshCompletes(_, Success(_)) =>
      AgainAll(w.shared.adaptOperations) + RetryAll(w.shared.requestsToRetry, Retry)
    case RefreshCompletes(_, Failure(error)) =>
      FailAll(w.shared.adaptOperations, error) + RetryAll(w.shared.requestsToRetry, DoNotRetryWithError(error))
    case _ =>
      if IsRefused(window, w, e) then
        FailAll(AdaptsWaiting(w, e), ExcessiveRefresh) + RetryAll(RetriesWaiting(w, e), DoNotRetryWithError(ExcessiveRefresh))
      else if IsStarted(window, w, e) then [Call(CredentialToRefresh(w, e))]
      else []
  }

  // ---------- What is done ----------

  function Calls(credentials: seq<Credential>): seq<Task> {
    seq(|credentials|, i requires 0 <= i < |credentials| => Call(credentials[i]))
  }

  function AdaptTasks(answers: seq<(nat, AdaptAnswer)>): (r: seq<Task>)
    ensures |r| == |answers|
  {
    seq(|answers|, i requires 0 <= i < |answers| =>
      match answers[i].1
      case AdaptFailed(error) => FailAdapt(answers[i].0, error)
      case Adapted(_) => AdaptAgain(answers[i].0))
  }

  function RetryTasks(answers: seq<(nat, RetryAnswer)>): (r: seq<Task>)
    ensures |r| == |answers| && forall i | 0 <= i < |answers| :: r[i] == AnswerRetry(answers[i].0, answers[i].1)
  {
    seq(|answers|, i requires 0 <= i < |answers| => AnswerRetry(answers[i].0, answers[i].1))
  }

  function NewIn<A>(before: seq<A>, after: seq<A>): seq<A> {
    if |before| <= |after| then after[|before|..] else []
  }

  /** What a step of the queue has done, seen from outside: calls of the authenticator, operations taken to
      the lock again, and answers. */
  function DoneBy(w: World, e: Event, w': World): seq<Task> {
    if !e.QueueRuns? then [] else
    Calls(NewIn(w.inFlight, w'.inFlight))
    + (if DecidedBy(w, e).Some? then [AdaptAgain(DecidedBy(w, e).value)] else [])
    + AdaptTasks(NewIn(w.adaptAnswers, w'.adaptAnswers))
    + RetryTasks(NewIn(w.retryAnswers, w'.retryAnswers))
  }

  // ---------- One step ----------

  lemma {:induction false} QueueTasksSnoc(queue: seq<Block>, b: Block)
    ensures QueueTasks(queue + [b]) == QueueTasks(queue) + BlockTasks(b)
  {
    hide BlockTasks;
    if queue == [] {
      assert queue + [b] == [b] && [b][1..] == [];
    } else {
      QueueTasksSnoc(queue[1..], b);
      assert (queue + [b])[1..] == queue[1..] + [b];
      Associate(BlockTasks(queue[0]), QueueTasks(queue[1..]), BlockTasks(b));
    }
  }

  lemma QueueTasksHead(queue: seq<Block>, b: Block)
    requires queue != []
    ensures QueueTasks(queue) == BlockTasks(queue[0]) + QueueTasks(queue[1..])
    ensures QueueTasks([b] + queue[1..]) == BlockTasks(b) + QueueTasks(queue[1..])
  {
    assert ([b] + queue[1..])[1..] == queue[1..];
  }

  lemma NothingNew<A>(s: seq<A>, a: A)
    ensures NewIn(s, s) == [] && NewIn(s, s + [a]) == [a]
  {
  }

  lemma NothingAnswered(credentials: seq<Credential>, adapts: seq<(nat, AdaptAnswer)>, retries: seq<(nat, RetryAnswer)>)
    ensures Calls(NewIn(credentials, credentials)) == []
    ensures AdaptTasks(NewIn(adapts, adapts)) == [] && RetryTasks(NewIn(retries, retries)) == []
  {
  }

  lemma FirstRetry(retries: seq<nat>, answer: RetryAnswer)
    requires retries != []
    ensures RetryAll(retries, answer) == [AnswerRetry(retries[0], answer)] + RetryAll(retries[1..], answer)
  {
  }

  lemma FirstFail(adapts: seq<nat>, error: AuthenticationError)
    requires adapts != []
    ensures FailAll(adapts, error) == [FailAdapt(adapts[0], error)] + FailAll(adapts[1..], error)
  {
  }

  lemma FirstAgain(adapts: seq<nat>)
    requires adapts != []
    ensures AgainAll(adapts) == [AdaptAgain(adapts[0])] + AgainAll(adapts[1..])
  {
  }

  /** The critical section of adapt puts on the queue what its step orders. */
  lemma AdaptLocksOrders(window: Option<RefreshWindow>, w: World, op: nat, r: Reading)
    requires OneRefresh(w)
    ensures var s, w' := w.shared, AdaptLocks(window, w, op, r);
      && w'.inFlight == w.inFlight && w'.adaptAnswers == w.adaptAnswers && w'.retryAnswers == w.retryAnswers
      && QueueTasks(w'.shared.queue) == QueueTasks(s.queue) +
           (if s.isRefreshing || s.credential.None? || !r.requiresRefresh then []
            else if IsExcessive(window, s.refreshTimestamps, r.checked) then
              FailAll(s.adaptOperations + [op], ExcessiveRefresh) + RetryAll(s.requestsToRetry, DoNotRetryWithError(ExcessiveRefresh))
            else [Call(s.credential.value)])
  {
    hide QueueTasks, IsExcessive;
    var s := w.shared;
    QueueTasksSnoc(s.queue, DrainFailure(ExcessiveRefresh, s.adaptOperations + [op], s.requestsToRetry));
    if s.credential.Some? {
      QueueTasksSnoc(s.queue, StartRefresh(s.credential.value));
    }
    assert QueueTasks(s.queue) + [] == QueueTasks(s.queue);
  }

  lemma ClientAdaptsOrders(window: Option<RefreshWindow>, w: World, e: Event)
    requires OneRefresh(w) && Enabled(w, e) && e.ClientAdapts?
    ensures QueueTasks(Step(window, w, e).shared.queue) == QueueTasks(w.shared.queue) + OrderedBy(window, w, e)
  {
    hide QueueTasks, IsExcessive, AdaptLocks;
    AdaptLocksOrders(window, w.(adaptsSubmitted := w.adaptsSubmitted + {e.op}), e.op, e.reading);
    assert RetriesWaiting(w, e) == w.shared.requestsToRetry;
  }

  lemma RetryLocksOrders(window: Option<RefreshWindow>, w: World, e: Event)
    requires OneRefresh(w) && Enabled(w, e) && e.RetryLocks?
    ensures QueueTasks(Step(window, w, e).shared.queue) == QueueTasks(w.shared.queue) + OrderedBy(window, w, e)
  {
    hide QueueTasks, IsExcessive, RefreshesIn;
    var s := w.shared;
    QueueTasksSnoc(s.queue, DrainFailure(ExcessiveRefresh, s.adaptOperations, s.requestsToRetry + [e.op]));
    QueueTasksSnoc(s.queue, StartRefresh(w.retriesInHand[e.op].value));
    assert AdaptsWaiting(w, e) == s.adaptOperations;
  }

  lemma RefreshCompletesOrders(window: Option<RefreshWindow>, w: World, e: Event)
    requires Enabled(w, e) && e.RefreshCompletes?
    ensures QueueTasks(Step(window, w, e).shared.queue) == QueueTasks(w.shared.queue) + OrderedBy(window, w, e)
  {
    hide QueueTasks;
    var s := w.shared;
    match e.result {
      case Success(_) => QueueTasksSnoc(s.queue, DrainSuccess(s.adaptOperations, s.requestsToRetry));
      case Failure(error) => QueueTasksSnoc(s.queue, DrainFailure(error, s.adaptOperations, s.requestsToRetry));
    }
  }

  /** What has been done when a step of the queue has changed one list only. */
  lemma OneThingDone(w: World, e: Event, w': World)
    requires e.QueueRuns? && DecidedBy(w, e).None?
    ensures w'.inFlight == w.inFlight && w'.adaptAnswers == w.adaptAnswers && w'.retryAnswers == w.retryAnswers ==>
      DoneBy(w, e, w') == []
    ensures forall c | w'.inFlight == w.inFlight + [c] && w'.adaptAnswers == w.adaptAnswers && w'.retryAnswers == w.retryAnswers ::
      DoneBy(w, e, w') == [Call(c)]
    ensures forall op, error | w'.inFlight == w.inFlight && w'.adaptAnswers == w.adaptAnswers + [(op, AdaptFailed(error))]
        && w'.retryAnswers == w.retryAnswers ::
      DoneBy(w, e, w') == [FailAdapt(op, error)]
    ensures forall op, answer | w'.inFlight == w.inFlight && w'.adaptAnswers == w.adaptAnswers
        && w'.retryAnswers == w.retryAnswers + [(op, answer)] ::
      DoneBy(w, e, w') == [AnswerRetry(op, answer)]
  {
  }

  /** The queue serves the next operation of a drain after a successful refresh. */
  lemma DrainAdaptDoes(window: Option<RefreshWindow>, w: World, e: Event)
    requires OneRefresh(w) && Enabled(w, e) && e.QueueRuns? && DecidedBy(w, e).Some?
    ensures var w' := Step(window, w, e);
      DoneBy(w, e, w') + QueueTasks(w'.shared.queue) == QueueTasks(w.shared.queue) + OrderedBy(window, w, e)
  {
    hide QueueTasks, IsExcessive, AdaptLocks, AfterAdapt, RefreshesIn, NewIn, Calls, AdaptTasks, RetryTasks, BlockTasks;
    var b, rest := w.shared.queue[0], w.shared.queue[1..];
    var op, b' := b.adapts[0], DrainSuccess(b.adapts[1..], b.retries);
    var v := w.(shared := w.shared.(queue := [b'] + rest));
    QueueTasksHead(w.shared.queue, b');
    HeadTaken(w, op);
    AdaptLocksOrders(window, v, op, e.reading);
    NothingAnswered(w.inFlight, w.adaptAnswers, w.retryAnswers);
    DrainTasks(b.adapts, b.retries);
    assert DoneBy(w, e, Step(window, w, e)) == [AdaptAgain(op)];
    Associate([AdaptAgain(op)], BlockTasks(b'), QueueTasks(rest));
    Associate([AdaptAgain(op)], QueueTasks(v.shared.queue), OrderedBy(window, w, e));
  }

  lemma DrainTasks(adapts: seq<nat>, retries: seq<nat>)
    requires adapts != []
    ensures BlockTasks(DrainSuccess(adapts, retries)) == [AdaptAgain(adapts[0])] + BlockTasks(DrainSuccess(adapts[1..], retries))
  {
    FirstAgain(adapts);
    Associate([AdaptAgain(adapts[0])], AgainAll(adapts[1..]), RetryAll(retries, Retry));
  }

  /** The next operation or retry of a block whose answer is settled. */
  lemma BlockTasksHead(b: Block)
    ensures b.DrainSuccess? && b.adapts == [] && b.retries != [] ==>
      BlockTasks(b) == [AnswerRetry(b.retries[0], Retry)] + BlockTasks(DrainSuccess([], b.retries[1..]))
    ensures b.DrainFailure? && b.adapts != [] ==>
      BlockTasks(b) == [FailAdapt(b.adapts[0], b.error)] + BlockTasks(DrainFailure(b.error, b.adapts[1..], b.retries))
    ensures b.DrainFailure? && b.adapts == [] && b.retries != [] ==>
      BlockTasks(b) == [AnswerRetry(b.retries[0], DoNotRetryWithError(b.error))] + BlockTasks(DrainFailure(b.error, [], b.retries[1..]))
    ensures !b.StartRefresh? && b.adapts == [] && b.retries == [] ==> BlockTasks(b) == []
  {
    hide FailAll, AgainAll, RetryAll;
    if b.DrainFailure? && b.adapts != [] {
      FirstFail(b.adapts, b.error);
      Associate([FailAdapt(b.adapts[0], b.error)], FailAll(b.adapts[1..], b.error), RetryAll(b.retries, DoNotRetryWithError(b.error)));
    } else if !b.StartRefresh? && b.adapts == [] {
      RetriesOnly(b);
      if b.retries != [] {
        RetriesOnly(if b.DrainSuccess? then DrainSuccess([], b.retries[1..]) else DrainFailure(b.error, [], b.retries[1..]));
        FirstRetry(b.retries, if b.DrainSuccess? then Retry else DoNotRetryWithError(b.error));
      }
    }
  }

  lemma RetriesOnly(b: Block)
    requires !b.StartRefresh? && b.adapts == []
    ensures BlockTasks(b) == RetryAll(b.retries, if b.DrainSuccess? then Retry else DoNotRetryWithError(b.error))
  {
  }

  /** The queue calls the authenticator, answers, or takes an exhausted drain off. */
  lemma OtherBlockDoes(window: Option<RefreshWindow>, w: World, e: Event)
    requires Enabled(w, e) && e.QueueRuns? && DecidedBy(w, e).None?
    ensures var w' := Step(window, w, e);
      DoneBy(w, e, w') + QueueTasks(w'.shared.queue) == QueueTasks(w.shared.queue) + OrderedBy(window, w, e)
  {
    hide QueueTasks, DoneBy, BlockTasks;
    var b, w' := w.shared.queue[0], Step(window, w, e);
    QueueTasksHead(w.shared.queue, if w'.shared.queue == [] then b else w'.shared.queue[0]);
    OneThingDone(w, e, w');
    BlockTasksHead(b);
    StartTasks(b);
  }

  lemma StartTasks(b: Block)
    ensures b.StartRefresh? ==> BlockTasks(b) == [Call(b.credential)]
  {
  }

  /** Every step orders at the end of the queue and does from its head. */
  lemma StepDoes(window: Option<RefreshWindow>, w: World, e: Event)
    requires OneRefresh(w) && Enabled(w, e)
    ensures var w' := Step(window, w, e);
      DoneBy(w, e, w') + QueueTasks(w'.shared.queue) == QueueTasks(w.shared.queue) + OrderedBy(window, w, e)
  {
    hide QueueTasks, IsExcessive, OneRefresh, QueueStep, AfterRetry;
    if e.ClientAdapts? {
      ClientAdaptsOrders(window, w, e);
      hide Step, OrderedBy;
    } else if e.RetryLocks? {
      RetryLocksOrders(window, w, e);
      hide Step, OrderedBy;
    } else if e.RefreshCompletes? {
      RefreshCompletesOrders(window, w, e);
      hide Step, OrderedBy;
    } else if e.QueueRuns? {
      if DecidedBy(w, e).Some? {
        DrainAdaptDoes(window, w, e);
      } else {
        OtherBlockDoes(window, w, e);
      }
    }
  }

  // ---------- All runs ----------

  /** Everything that was ordered in a run, and everything the queue has done, in order of time */
  ghost function Ordered(window: Option<RefreshWindow>, start: Option<Credential>, events: seq<Event>): seq<Task>
    requires Run(window, start, events).Some?
  {
    if events == [] then [] else
    var n := |events| - 1;
    RunLast(window, start, events);
    Ordered(window, start, events[..n]) + OrderedBy(window, Run(window, start, events[..n]).value, events[n])
  }

  ghost function Done(window: Option<RefreshWindow>, start: Option<Credential>, events: seq<Event>): seq<Task>
    requires Run(window, start, events).Some?
  {
    if events == [] then [] else
    var n := |events| - 1;
    RunLast(window, start, events);
    Done(window, start, events[..n])
    + DoneBy(Run(window, start, events[..n]).value, events[n], Run(window, start, events).value)
  }

  lemma Regroup<T>(done: seq<T>, now: seq<T>, after: seq<T>, before: seq<T>, ordered: seq<T>, orders: seq<T>)
    requires done + before == ordered && now + after == before + orders
    ensures done + now + after == ordered + orders
  {
    Associate(done, now, after);
    Associate(done, before, orders);
  }

  /** Main result: in every run, what the queue has done and what it still has to do is, in this order,
      what was ordered. */
  lemma {:induction false} QueueDoesAsOrdered(window: Option<RefreshWindow>, start: Option<Credential>, events: seq<Event>)
    requires Run(window, start, events).Some?
    ensures Done(window, start, events) + QueueTasks(Run(window, start, events).value.shared.queue) == Ordered(window, start, events)
  {
    if events != [] {
      hide Run, Step, Enabled, QueueTasks, OneRefresh, InOnePlace, DoneBy, OrderedBy;
      var n := |events| - 1;
      var before := events[..n];
      RunLast(window, start, events);
      QueueDoesAsOrdered(window, start, before);
      EveryRunKeepsInv(window, start, before);
      var w, w' := Run(window, start, before).value, Run(window, start, events).value;
      StepDoes(window, w, events[n]);
      Regroup(Done(window, start, before), DoneBy(w, events[n], w'), QueueTasks(w'.shared.queue), QueueTasks(w.shared.queue),
              Ordered(window, start, before), OrderedBy(window, w, events[n]));
    }
  }

  lemma {:induction false} OrderedAt(window: Option<RefreshWindow>, start: Option<Credential>, events: seq<Event>, k: nat, task: Task)
    requires Run(window, start, events).Some? && k < |events|
    ensures Run(window, start, events[..k]).Some? && Enabled(Run(window, start, events[..k]).value, events[k])
    ensures task in OrderedBy(window, Run(window, start, events[..k]).value, events[k]) ==> task in Ordered(window, start, events)
  {
    hide Run, Step, Enabled, OrderedBy;
    var n := |events| - 1;
    RunLast(window, start, events);
    if k < n {
      OrderedAt(window, start, events[..n], k, task);
      assert events[..n][..k] == events[..k];
    }
  }

  /** What the queue has done shows in the answers given. */
  lemma {:induction false} DoneShows(window: Option<RefreshWindow>, start: Option<Credential>, events: seq<Event>, task: Task)
    requires Run(window, start, events).Some? && task in Done(window, start, events)
    ensures var w := Run(window, start, events).value;
      && (task.AnswerRetry? ==> (task.op, task.answer) in w.retryAnswers)
      && (task.FailAdapt? ==> (task.op, AdaptFailed(task.error)) in w.adaptAnswers)
  {
    if events != [] {
      hide Run, Step, Enabled, DoneBy;
      var n := |events| - 1;
      RunLast(window, start, events);
      var w, w' := Run(window, start, events[..n]).value, Run(window, start, events).value;
      AnswersGrow(window, w, events[n]);
      if task in Done(window, start, events[..n]) {
        DoneShows(window, start, events[..n], task);
      } else {
        DoneByShows(w, events[n], w', task);
      }
    }
  }

  lemma AnswersGrow(window: Option<RefreshWindow>, w: World, e: Event)
    requires Enabled(w, e)
    ensures var w' := Step(window, w, e); w.adaptAnswers <= w'.adaptAnswers && w.retryAnswers <= w'.retryAnswers
  {
    hide AfterAdapt, AfterRetry;
  }

  lemma DoneByShows(w: World, e: Event, w': World, task: Task)
    requires task in DoneBy(w, e, w')
    ensures task.AnswerRetry? ==> (task.op, task.answer) in w'.retryAnswers
    ensures task.FailAdapt? ==> (task.op, AdaptFailed(task.error)) in w'.adaptAnswers
  {
    hide NewIn, AdaptTasks, RetryTasks;
    var retries, adapts := NewIn(w.retryAnswers, w'.retryAnswers), NewIn(w.adaptAnswers, w'.adaptAnswers);
    CallsAreCalls(NewIn(w.inFlight, w'.inFlight), task);
    AdaptShows(adapts, task);
    RetryShows(retries, task);
    NewIsIn(w.retryAnswers, w'.retryAnswers);
    NewIsIn(w.adaptAnswers, w'.adaptAnswers);
  }

  lemma NewIsIn<A>(before: seq<A>, after: seq<A>)
    ensures forall a | a in NewIn(before, after) :: a in after
  {
  }

  lemma CallsAreCalls(credentials: seq<Credential>, task: Task)
    ensures task in Calls(credentials) ==> task.Call?
  {
  }

  lemma AdaptShows(answers: seq<(nat, AdaptAnswer)>, task: Task)
    ensures task in AdaptTasks(answers) ==> !task.AnswerRetry?
    ensures task in AdaptTasks(answers) && task.FailAdapt? ==> (task.op, AdaptFailed(task.error)) in answers
  {
    if task in AdaptTasks(answers) && task.FailAdapt? {
      var i :| 0 <= i < |answers| && AdaptTasks(answers)[i] == task;
      assert answers[i] == (task.op, AdaptFailed(task.error));
    }
  }

  lemma RetryShows(answers: seq<(nat, RetryAnswer)>, task: Task)
    ensures task in RetryTasks(answers) ==> task.AnswerRetry? && (task.op, task.answer) in answers
  {
    if task in RetryTasks(answers) {
      var i :| 0 <= i < |answers| && RetryTasks(answers)[i] == task;
      assert answers[i] == (task.op, task.answer);
    }
  }

  /** What is ordered is done, unless it still waits in the queue. */
  lemma OrdersAreDone(window: Option<RefreshWindow>, start: Option<Credential>, events: seq<Event>, k: nat, task: Task)
    requires Run(window, start, events).Some? && k < |events|
    requires Run(window, start, events[..k]).Some? && Enabled(Run(window, start, events[..k]).value, events[k])
    requires task in OrderedBy(window, Run(window, start, events[..k]).value, events[k])
    ensures task in Done(window, start, events) || task in QueueTasks(Run(window, start, events).value.shared.queue)
  {
    hide Run, Step, Enabled, OrderedBy, QueueTasks, Ordered, Done;
    OrderedAt(window, start, events, k, task);
    QueueDoesAsOrdered(window, start, events);
  }

  /** Every retry that waits when a refresh succeeds is answered Retry, or is going to be. */
  lemma WaitingRetryRetries(window: Option<RefreshWindow>, start: Option<Credential>, events: seq<Event>, k: nat, op: nat)
    requires Run(window, start, events).Some? && k < |events| && events[k].RefreshCompletes? && events[k].result.Success?
    requires Run(window, start, events[..k]).Some? && op in Run(window, start, events[..k]).value.shared.requestsToRetry
    ensures var w := Run(window, start, events).value;
      (op, Retry) in w.retryAnswers || AnswerRetry(op, Retry) in QueueTasks(w.shared.queue)
  {
    hide Run, Step, Enabled, QueueTasks, Ordered, Done;
    RunPrefix(window, start, events, k);
    var waiting := Run(window, start, events[..k]).value.shared.requestsToRetry;
    var i :| 0 <= i < |waiting| && waiting[i] == op;
    assert RetryAll(waiting, Retry)[i] == AnswerRetry(op, Retry);
    OrdersAreDone(window, start, events, k, AnswerRetry(op, Retry));
    if AnswerRetry(op, Retry) in Done(window, start, events) {
      DoneShows(window, start, events, AnswerRetry(op, Retry));
    }
  }

  /** The error with which a step ends all waiting, if it does: that of a failed refresh, or of a refusal. */
  function FailsWaiting(window: Option<RefreshWindow>, w: World, e: Event): Option<AuthenticationError> {
    if e.RefreshCompletes? && e.result.Failure? then Some(e.result.error)
    else if IsRefused(window, w, e) then Some(ExcessiveRefresh)
    else None
  }

  /** Every operation that waits when a refresh fails or is refused is answered with its error, or is going
      to be; the operation that asked for a refused refresh is one of them. */
  lemma WaitingIsFailed(window: Option<RefreshWindow>, start: Option<Credential>, events: seq<Event>, k: nat, op: nat,
                        error: AuthenticationError)
    requires Run(window, start, events).Some? && k < |events| && Run(window, start, events[..k]).Some?
    requires FailsWaiting(window, Run(window, start, events[..k]).value, events[k]) == Some(error)
    ensures var w, now := Run(window, start, events[..k]).value, Run(window, start, events).value;
      && (op in RetriesWaiting(w, events[k]) ==>
            (op, DoNotRetryWithError(error)) in now.retryAnswers
            || AnswerRetry(op, DoNotRetryWithError(error)) in QueueTasks(now.shared.queue))
      && (op in AdaptsWaiting(w, events[k]) ==>
            (op, AdaptFailed(error)) in now.adaptAnswers || FailAdapt(op, error) in QueueTasks(now.shared.queue))
  {
    hide Run, Step, Enabled, QueueTasks, Ordered, Done, IsExcessive;
    RunPrefix(window, start, events, k);
    var w, e := Run(window, start, events[..k]).value, events[k];
    FailureOrders(window, w, e, error, op);
    if op in RetriesWaiting(w, e) {
      var task := AnswerRetry(op, DoNotRetryWithError(error));
      OrdersAreDone(window, start, events, k, task);
      if task in Done(window, start, events) {
        DoneShows(window, start, events, task);
      }
    }
    if op in AdaptsWaiting(w, e) {
      var task := FailAdapt(op, error);
      OrdersAreDone(window, start, events, k, task);
      if task in Done(window, start, events) {
        DoneShows(window, start, events, task);
      }
    }
  }

  lemma FailureOrders(window: Option<RefreshWindow>, w: World, e: Event, error: AuthenticationError, op: nat)
    requires Enabled(w, e) && FailsWaiting(window, w, e) == Some(error)
    ensures op in RetriesWaiting(w, e) ==> AnswerRetry(op, DoNotRetryWithError(error)) in OrderedBy(window, w, e)
    ensures op in AdaptsWaiting(w, e) ==> FailAdapt(op, error) in OrderedBy(window, w, e)
  {
    hide IsExcessive;
    var retries, adapts := RetriesWaiting(w, e), AdaptsWaiting(w, e);
    if op in retries {
      var i :| 0 <= i < |retries| && retries[i] == op;
      assert RetryAll(retries, DoNotRetryWithError(error))[i] == AnswerRetry(op, DoNotRetryWithError(error));
    }
    if op in adapts {
      var i :| 0 <= i < |adapts| && adapts[i] == op;
      assert FailAll(adapts, error)[i] == FailAdapt(op, error);
    }
  }

  // ---------- Every answer has its reason ----------

  /** The answer of a retry that does not wait: it was refused at once, or it ended on what it had read. */
  ghost predicate RetryEndedItself(window: Option<RefreshWindow>, start: Option<Credential>, events: seq<Event>,
                                   k: nat, op: nat, answer: RetryAnswer)
  {
    && k < |events| && Run(window, start, events[..k]).Some?
    && var w := Run(window, start, events[..k]).value;
       || (events[k] == RetryRefused(op) && answer == DoNotRetry)
       || (&& events[k] == RetryEnds(op) && op in w.retriesInHand
           && answer == if w.retriesInHand[op].None? then DoNotRetryWithError(MissingCredential) else Retry)
  }

  lemma EndedEarlier(window: Option<RefreshWindow>, start: Option<Credential>, events: seq<Event>,
                     n: nat, k: nat, op: nat, answer: RetryAnswer)
    requires n <= |events| && RetryEndedItself(window, start, events[..n], k, op, answer)
    ensures RetryEndedItself(window, start, events, k, op, answer)
  {
    assert events[..n][..k] == events[..k];
  }

  lemma StepRetryAnswers(window: Option<RefreshWindow>, w: World, e: Event, a: (nat, RetryAnswer))
    requires Enabled(w, e) && a in Step(window, w, e).retryAnswers && a !in w.retryAnswers
    ensures || (e == RetryRefused(a.0) && a.1 == DoNotRetry)
            || (&& e == RetryEnds(a.0) && a.0 in w.retriesInHand
                && a.1 == if w.retriesInHand[a.0].None? then DoNotRetryWithError(MissingCredential) else Retry)
            || AnswerRetry(a.0, a.1) in DoneBy(w, e, Step(window, w, e))
  {
    hide AfterAdapt, AfterRetry;
    if e.QueueRuns? {
      QueueAnswers(window, w, e, a);
    }
  }

  lemma QueueAnswers(window: Option<RefreshWindow>, w: World, e: Event, a: (nat, RetryAnswer))
    requires Enabled(w, e) && e.QueueRuns?
    requires a in Step(window, w, e).retryAnswers && a !in w.retryAnswers
    ensures AnswerRetry(a.0, a.1) in DoneBy(w, e, Step(window, w, e))
  {
    AnswersGrow(window, w, e);
    hide Step, Enabled, Calls, AdaptTasks;
    var before, after := w.retryAnswers, Step(window, w, e).retryAnswers;
    var i :| 0 <= i < |after| && after[i] == a;
    assert i >= |before| && NewIn(before, after)[i - |before|] == a;
    assert RetryTasks(NewIn(before, after))[i - |before|] == AnswerRetry(a.0, a.1);
  }

  /** Main result: a retry is answered on what it found itself, or as it was ordered while it waited. */
  lemma {:induction false} RetryAnswerHasReason(window: Option<RefreshWindow>, start: Option<Credential>, events: seq<Event>,
                                                op: nat, answer: RetryAnswer)
    requires Run(window, start, events).Some? && (op, answer) in Run(window, start, events).value.retryAnswers
    ensures (exists k :: RetryEndedItself(window, start, events, k, op, answer))
         || AnswerRetry(op, answer) in Ordered(window, start, events)
  {
    hide Step, Enabled, RetryEndedItself, QueueTasks, OrderedBy, DoneBy;
    assert events != [] by {
      assert Start(start).retryAnswers == [];
    }
    hide Run, Done, Ordered;
    var n := |events| - 1;
    RunLast(window, start, events);
    var w, e := Run(window, start, events[..n]).value, events[n];
    if (op, answer) in w.retryAnswers {
      RetryAnswerHasReason(window, start, events[..n], op, answer);
      if k :| RetryEndedItself(window, start, events[..n], k, op, answer) {
        EndedEarlier(window, start, events, n, k, op, answer);
      } else {
        OrderedSnoc(window, start, events);
      }
    } else {
      StepRetryAnswers(window, w, e, (op, answer));
      EndedNow(window, start, events, op, answer);
      if AnswerRetry(op, answer) in DoneBy(w, e, Step(window, w, e)) {
        OrderedSnoc(window, start, events);
        QueueDoesAsOrdered(window, start, events);
      }
    }
  }

  lemma EndedNow(window: Option<RefreshWindow>, start: Option<Credential>, events: seq<Event>, op: nat, answer: RetryAnswer)
    requires events != [] && Run(window, start, events[..|events| - 1]).Some?
    ensures var n := |events| - 1;
      var w, e := Run(window, start, events[..n]).value, events[n];
      (e == RetryRefused(op) && answer == DoNotRetry)
      || (&& e == RetryEnds(op) && op in w.retriesInHand
          && answer == if w.retriesInHand[op].None? then DoNotRetryWithError(MissingCredential) else Retry) ==>
      RetryEndedItself(window, start, events, n, op, answer)
  {
  }

  lemma OrderedSnoc(window: Option<RefreshWindow>, start: Option<Credential>, events: seq<Event>)
    requires Run(window, start, events).Some? && events != []
    ensures var n := |events| - 1;
      && Run(window, start, events[..n]).Some? && Enabled(Run(window, start, events[..n]).value, events[n])
      && Ordered(window, start, events) ==
           Ordered(window, start, events[..n]) + OrderedBy(window, Run(window, start, events[..n]).value, events[n])
      && Done(window, start, events) == Done(window, start, events[..n])
           + DoneBy(Run(window, start, events[..n]).value, events[n], Run(window, start, events).value)
  {
    RunLast(window, start, events);
  }

  /** At event k the lock was taken for op while there was no credential and no refresh under way. */
  ghost predicate FoundNoCredential(window: Option<RefreshWindow>, start: Option<Credential>, events: seq<Event>, k: nat, op: nat) {
    && k < |events| && Run(window, start, events[..k]).Some?
    && var w := Run(window, start, events[..k]).value;
       DecidedBy(w, events[k]) == Some(op) && w.shared.credential == None && !w.shared.isRefreshing
  }

  lemma FoundEarlier(window: Option<RefreshWindow>, start: Option<Credential>, events: seq<Event>, n: nat, k: nat, op: nat)
    requires n <= |events| && FoundNoCredential(window, start, events[..n], k, op)
    ensures FoundNoCredential(window, start, events, k, op)
  {
    assert events[..n][..k] == events[..k];
  }

  /** What the critical section of adapt leaves in the hand of its thread. */
  lemma DecisionIs(window: Option<RefreshWindow>, w: World, e: Event)
    requires Enabled(w, e) && !e.AdaptCompletes?
    ensures var w', op := Step(window, w, e), DecidedBy(w, e);
      w'.adaptsInHand ==
        if op.None? || w.shared.isRefreshing then w.adaptsInHand
        else if w.shared.credential.None? then w.adaptsInHand[op.value := AdaptFailed(MissingCredential)]
        else if e.reading.requiresRefresh then w.adaptsInHand
        else w.adaptsInHand[op.value := Adapted(w.shared.credential.value)]
  {
    hide AfterRefresh;
  }

  lemma {:induction false} HeldFailureHasReason(window: Option<RefreshWindow>, start: Option<Credential>, events: seq<Event>,
                                                op: nat, error: AuthenticationError) returns (k: nat)
    requires Run(window, start, events).Some?
    requires var w := Run(window, start, events).value; op in w.adaptsInHand && w.adaptsInHand[op] == AdaptFailed(error)
    ensures error == MissingCredential && FoundNoCredential(window, start, events, k, op)
  {
    hide Step, Enabled, Run, FoundNoCredential, DecidedBy;
    RunIsNotEmpty(window, start, events, op);
    RunLast(window, start, events);
    var n := |events| - 1;
    var w, e := Run(window, start, events[..n]).value, events[n];
    if op in w.adaptsInHand && w.adaptsInHand[op] == AdaptFailed(error) {
      k := HeldFailureHasReason(window, start, events[..n], op, error);
      FoundEarlier(window, start, events, n, k, op);
    } else {
      k := n;
      if e.AdaptCompletes? {
        CompletingHolds(window, w, e);
      } else {
        DecisionIs(window, w, e);
      }
      FoundNow(window, start, events, op);
    }
  }

  lemma CompletingHolds(window: Option<RefreshWindow>, w: World, e: Event)
    requires Enabled(w, e) && e.AdaptCompletes?
    ensures Step(window, w, e).adaptsInHand == w.adaptsInHand - {e.op}
  {
  }

  lemma FoundNow(window: Option<RefreshWindow>, start: Option<Credential>, events: seq<Event>, op: nat)
    requires events != [] && Run(window, start, events[..|events| - 1]).Some?
    ensures var n := |events| - 1;
      var w := Run(window, start, events[..n]).value;
      DecidedBy(w, events[n]) == Some(op) && w.shared.credential == None && !w.shared.isRefreshing ==>
      FoundNoCredential(window, start, events, n, op)
  {
  }

  lemma StepFailures(window: Option<RefreshWindow>, w: World, e: Event, op: nat, error: AuthenticationError)
    requires Enabled(w, e)
    requires (op, AdaptFailed(error)) in Step(window, w, e).adaptAnswers && (op, AdaptFailed(error)) !in w.adaptAnswers
    ensures || (e == AdaptCompletes(op) && op in w.adaptsInHand && w.adaptsInHand[op] == AdaptFailed(error))
            || FailAdapt(op, error) in DoneBy(w, e, Step(window, w, e))
  {
    AnswersGrow(window, w, e);
    var before, after := w.adaptAnswers, Step(window, w, e).adaptAnswers;
    var i :| 0 <= i < |after| && after[i] == (op, AdaptFailed(error));
    assert NewIn(before, after)[i - |before|] == after[i];
    if e.QueueRuns? {
      hide Step, Enabled, Calls, RetryTasks;
      assert AdaptTasks(NewIn(before, after))[i - |before|] == FailAdapt(op, error);
    } else {
      hide AfterAdapt, AfterRetry, DoneBy;
    }
  }

  /** Main result: a request fails to be adapted only because there was no credential when its decision was
      made, or as it was ordered while it waited. */
  lemma {:induction false} FailureHasReason(window: Option<RefreshWindow>, start: Option<Credential>, events: seq<Event>,
                                            op: nat, error: AuthenticationError)
    requires Run(window, start, events).Some? && (op, AdaptFailed(error)) in Run(window, start, events).value.adaptAnswers
    ensures (error == MissingCredential && exists k :: FoundNoCredential(window, start, events, k, op))
         || FailAdapt(op, error) in Ordered(window, start, events)
  {
    hide Step, Enabled, FoundNoCredential, QueueTasks, OrderedBy, DoneBy;
    assert events != [] by {
      assert Start(start).adaptAnswers == [];
    }
    hide Run, Done, Ordered;
    var n := |events| - 1;
    RunLast(window, start, events);
    var w, e := Run(window, start, events[..n]).value, events[n];
    OrderedSnoc(window, start, events);
    if (op, AdaptFailed(error)) in w.adaptAnswers {
      FailureHasReason(window, start, events[..n], op, error);
      if k :| FoundNoCredential(window, start, events[..n], k, op) {
        FoundEarlier(window, start, events, n, k, op);
      }
    } else {
      StepFailures(window, w, e, op, error);
      if FailAdapt(op, error) in DoneBy(w, e, Step(window, w, e)) {
        QueueDoesAsOrdered(window, start, events);
      } else {
        var k := HeldFailureHasReason(window, start, events[..n], op, error);
        FoundEarlier(window, start, events, n, k, op);
      }
    }
  }

  // ---------- Who waits, and when a refresh is refused ----------

  lemma AdaptLocksWaits(window: Option<RefreshWindow>, w: World, op: nat, r: Reading)
    ensures var s, s' := w.shared, AdaptLocks(window, w, op, r).shared;
      var asks := !s.isRefreshing && s.credential.Some? && r.requiresRefresh;
      if asks && IsExcessive(window, s.refreshTimestamps, r.checked) then s'.requestsToRetry == [] && s'.adaptOperations == []
      else
        && s'.requestsToRetry == s.requestsToRetry
        && s'.adaptOperations == if s.isRefreshing || asks then s.adaptOperations + [op] else s.adaptOperations
  {
    hide IsExcessive;
  }

  /** Waiting ends for all when a refresh completes or is refused; retries begin to wait at the lock, requests
      when it is taken for them during a refresh or to start one. */
  lemma StepWaits(window: Option<RefreshWindow>, w: World, e: Event)
    requires Enabled(w, e)
    ensures var s' := Step(window, w, e).shared;
      if e.RefreshCompletes? || IsRefused(window, w, e) then s'.requestsToRetry == [] && s'.adaptOperations == []
      else
        && s'.requestsToRetry == RetriesWaiting(w, e)
        && s'.adaptOperations ==
             if DecidedBy(w, e).Some? && (w.shared.isRefreshing || NeedsRefresh(w, e)) then AdaptsWaiting(w, e)
             else w.shared.adaptOperations
  {
    hide IsExcessive, AdaptLocks;
    var s := w.shared;
    assert s.requestsToRetry + [] == s.requestsToRetry;
    if e.ClientAdapts? {
      AdaptLocksWaits(window, w.(adaptsSubmitted := w.adaptsSubmitted + {e.op}), e.op, e.reading);
    } else if e.QueueRuns? && DecidedBy(w, e).Some? {
      var b := s.queue[0];
      var v := w.(shared := s.(queue := [DrainSuccess(b.adapts[1..], b.retries)] + s.queue[1..]));
      AdaptLocksWaits(window, v, b.adapts[0], e.reading);
    }
  }

  /** Event k ends all waiting. */
  ghost predicate EndsWaiting(window: Option<RefreshWindow>, start: Option<Credential>, events: seq<Event>, k: nat) {
    k < |events| && Run(window, start, events[..k]).Some? &&
    (events[k].RefreshCompletes? || IsRefused(window, Run(window, start, events[..k]).value, events[k]))
  }

  /** In every run a retry waits from its lock on until a refresh completes or is refused. */
  lemma {:induction false} RetryWaits(window: Option<RefreshWindow>, start: Option<Credential>, events: seq<Event>, k: nat, op: nat)
    requires Run(window, start, events).Some? && k < |events| && events[k].RetryLocks? && events[k].op == op
    requires forall i: nat | k <= i < |events| :: !EndsWaiting(window, start, events, i)
    ensures op in Run(window, start, events).value.shared.requestsToRetry
  {
    hide Run, Step, Enabled, IsRefused;
    var n := |events| - 1;
    RunLast(window, start, events);
    assert !EndsWaiting(window, start, events, n);
    StepWaits(window, Run(window, start, events[..n]).value, events[n]);
    if k < n {
      forall i: nat | k <= i < n ensures !EndsWaiting(window, start, events[..n], i) {
        assert !EndsWaiting(window, start, events, i);
        assert events[..n][..i] == events[..i];
      }
      RetryWaits(window, start, events[..n], k, op);
    }
  }

  lemma {:induction false} SinceIsWithin(timestamps: seq<real>, from: real, to: real)
    requires forall i | 0 <= i < |timestamps| :: timestamps[i] <= to
    ensures CountSince(timestamps, from) == CountWithin(timestamps, from, to)
  {
    if timestamps != [] {
      SinceIsWithin(timestamps[..|timestamps| - 1], from, to);
    }
  }

  /** In every run an operation that asks for a refresh is refused if and only if there is a window and at
      least its maximum of refreshes have been started within the interval that ends when it asks. */
  lemma RefusedExactly(window: Option<RefreshWindow>, start: Option<Credential>, events: seq<Event>, e: Event)
    requires Run(window, start, events).Some? && Enabled(Run(window, start, events).value, e)
    requires AsksForRefresh(Run(window, start, events).value, e)
    ensures IsRefused(window, Run(window, start, events).value, e) <==>
      && window.Some?
      && CountWithin(Run(window, start, events).value.shared.refreshTimestamps,
                     e.reading.checked - window.value.interval, e.reading.checked) >= window.value.maximumAttempts
  {
    hide Run, WithinLimit, CountSince, CountWithin;
    var w := Run(window, start, events).value;
    if window.Some? {
      RunKeepsLimit(window.value, start, events);
      SinceIsWithin(w.shared.refreshTimestamps, e.reading.checked - window.value.interval, e.reading.checked);
    }
  }
}
