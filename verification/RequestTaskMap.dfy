/** RequestTaskMap.swift: a two-way map between requests and tasks whose pairs live until both
    of two events have been delivered for the task. */
module RequestTaskMapModel {
  import opened Collections

  /** fatalError, or a failed precondition, ends the program. */
  datatype Outcome<+T> = Returned(value: T) | FatalError

  datatype Events = Events(completed: bool, metricsGathered: bool)

  datatype State<T(==), R(==)> = State(tasksToRequests: map<T, R>, requestsToTasks: map<R, T>, taskEvents: map<T, Events>)

  // ---------- Consistency ----------

  /** The two maps are mutual inverses and events are recorded for the same tasks. */
  ghost predicate OneToOne<T, R>(s: State<T, R>) {
    && (forall t | t in s.tasksToRequests :: s.tasksToRequests[t] in s.requestsToTasks && s.requestsToTasks[s.tasksToRequests[t]] == t)
    && (forall r | r in s.requestsToTasks :: s.requestsToTasks[r] in s.tasksToRequests && s.tasksToRequests[s.requestsToTasks[r]] == r)
    && s.taskEvents.Keys == s.tasksToRequests.Keys
  }

  /** Mutually inverse maps have the same size, so the preconditions of the counts hold. */
  lemma {:induction false} InversesHaveOneSize<T, R>(f: map<T, R>, g: map<R, T>)
    requires forall t | t in f :: f[t] in g && g[f[t]] == t
    requires forall r | r in g :: g[r] in f && f[g[r]] == r
    ensures |f| == |g|
  {
    if f == map[] {
      assert g.Keys == {};
    } else {
      var t :| t in f;
      var f', g' := f - {t}, g - {f[t]};
      assert f'.Keys == f.Keys - {t} && g'.Keys == g.Keys - {f[t]};
      InversesHaveOneSize(f', g');
      assert |f'.Keys| == |f.Keys| - 1 && |g'.Keys| == |g.Keys| - 1;
    }
  }

  // ---------- The setters ----------

  function Associated<T, R>(s: State<T, R>, request: R, task: T): State<T, R> {
    State(s.tasksToRequests[task := request], s.requestsToTasks[request := task], s.taskEvents[task := Events(false, false)])
  }

  function Removed<T, R>(s: State<T, R>, request: R, task: T): State<T, R> {
    State(s.tasksToRequests - {task}, s.requestsToTasks - {request}, s.taskEvents - {task})
  }

  /** The setters overwrite only one end of a pair: the map stays one to one exactly if neither
      end belonged to another pair. */
  lemma AssociatedIsOneToOne<T, R>(s: State<T, R>, request: R, task: T)
    requires OneToOne(s)
    ensures OneToOne(Associated(s, request, task)) <==>
      && (request in s.requestsToTasks ==> s.requestsToTasks[request] == task)
      && (task in s.tasksToRequests ==> s.tasksToRequests[task] == request)
  {
    var s' := Associated(s, request, task);
    if request in s.requestsToTasks && s.requestsToTasks[request] != task {
      var former := s.requestsToTasks[request];
      assert s'.tasksToRequests[former] == request && s'.requestsToTasks[request] == task;
    }
    if task in s.tasksToRequests && s.tasksToRequests[task] != request {
      var former := s.tasksToRequests[task];
      assert s'.requestsToTasks[former] == task && s'.tasksToRequests[task] == request;
    }
  }

  lemma RemovedIsOneToOne<T, R>(s: State<T, R>, request: R, task: T)
    requires OneToOne(s) && task in s.tasksToRequests && s.tasksToRequests[task] == request
    ensures OneToOne(Removed(s, request, task))
    ensures Removed(Associated(s, request, task), request, task) == Removed(s, request, task)
  {
  }

  /** Removing undoes associating a fresh pair. */
  lemma RemovedUndoesAssociated<T, R>(s: State<T, R>, request: R, task: T)
    requires OneToOne(s) && request !in s.requestsToTasks && task !in s.tasksToRequests
    ensures Removed(Associated(s, request, task), request, task) == s
  {
    var s' := Removed(Associated(s, request, task), request, task);
    assert s'.tasksToRequests == s.tasksToRequests;
    assert s'.requestsToTasks == s.requestsToTasks;
    assert s'.taskEvents == s.taskEvents;
  }

  // ---------- Associations only ----------

  function Requests<T(==), R(==)>(pairs: seq<(R, T)>): set<R> {
    set i | 0 <= i < |pairs| :: pairs[i].0
  }

  function Tasks<T(==), R(==)>(pairs: seq<(R, T)>): set<T> {
    set i | 0 <= i < |pairs| :: pairs[i].1
  }

  /** The maps after associating these pairs in order */
  function AllAssociated<T, R>(pairs: seq<(R, T)>): State<T, R> {
    if pairs == [] then State(map[], map[], map[]) else
    var n := |pairs| - 1;
    Associated(AllAssociated(pairs[..n]), pairs[n].0, pairs[n].1)
  }

  lemma EndsSnoc<T, R>(pairs: seq<(R, T)>)
    requires pairs != []
    ensures var n := |pairs| - 1;
      && Requests(pairs) == Requests(pairs[..n]) + {pairs[n].0}
      && Tasks(pairs) == Tasks(pairs[..n]) + {pairs[n].1}
  {
  }

  lemma {:induction false} KeysAreEnds<T, R>(pairs: seq<(R, T)>)
    ensures AllAssociated(pairs).requestsToTasks.Keys == Requests(pairs)
    ensures AllAssociated(pairs).tasksToRequests.Keys == AllAssociated(pairs).taskEvents.Keys == Tasks(pairs)
  {
    if pairs != [] {
      EndsSnoc(pairs);
      hide Requests, Tasks;
      KeysAreEnds(pairs[..|pairs| - 1]);
    }
  }

  /** The precondition of the count after the first k associations */
  ghost predicate CountIsValid<T, R>(pairs: seq<(R, T)>, k: nat)
    requires k <= |pairs|
  {
    |Requests(pairs[..k])| == |Tasks(pairs[..k])|
  }

  /** Pair k brings a new request if and only if it brings a new task. */
  ghost predicate BothNewOrNone<T, R>(pairs: seq<(R, T)>, k: nat)
    requires k < |pairs|
  {
    pairs[k].0 in Requests(pairs[..k]) <==> pairs[k].1 in Tasks(pairs[..k])
  }

  lemma CountStep<T, R>(pairs: seq<(R, T)>, k: nat)
    requires k < |pairs| && CountIsValid(pairs, k)
    ensures CountIsValid(pairs, k + 1) <==> BothNewOrNone(pairs, k)
  {
    assert pairs[..k + 1][..k] == pairs[..k];
    EndsSnoc(pairs[..k + 1]);
    hide Requests, Tasks;
  }

  /** The count stays valid through the first n associations exactly if each brings a new request when
      and only when it brings a new task. */
  lemma {:induction false} CountStays<T, R>(pairs: seq<(R, T)>, n: nat)
    requires n <= |pairs|
    ensures (forall k | 0 <= k <= n :: CountIsValid(pairs, k)) <==> forall k | 0 <= k < n :: BothNewOrNone(pairs, k)
  {
    if n == 0 {
      assert pairs[..0] == [];
    } else {
      hide CountIsValid, BothNewOrNone;
      CountStays(pairs, n - 1);
      if CountIsValid(pairs, n - 1) {
        CountStep(pairs, n - 1);
      }
    }
  }

  /** Any two pairs that share one end share the other. */
  ghost predicate IsMatching<T(!new), R(!new)>(pairs: seq<(R, T)>) {
    forall i, j | 0 <= i < j < |pairs| :: pairs[i].0 == pairs[j].0 <==> pairs[i].1 == pairs[j].1
  }

  lemma {:induction false} MatchingIsHeld<T(!new), R(!new)>(pairs: seq<(R, T)>, i: nat)
    requires IsMatching(pairs) && i < |pairs|
    ensures var s := AllAssociated(pairs);
      && pairs[i].0 in s.requestsToTasks && s.requestsToTasks[pairs[i].0] == pairs[i].1
      && pairs[i].1 in s.tasksToRequests && s.tasksToRequests[pairs[i].1] == pairs[i].0
  {
    if i < |pairs| - 1 {
      MatchingIsHeld(pairs[..|pairs| - 1], i);
    }
  }

  /** The map stays one to one through all associations if and only if the pairs are a matching. */
  lemma {:induction false} StaysOneToOne<T(!new), R(!new)>(pairs: seq<(R, T)>)
    ensures (forall k | 0 <= k <= |pairs| :: OneToOne(AllAssociated(pairs[..k]))) <==> IsMatching(pairs)
  {
    if pairs == [] {
      assert forall k | 0 <= k <= |pairs| :: pairs[..k] == [];
    } else {
      hide OneToOne, AllAssociated, IsMatching;
      var n := |pairs| - 1;
      StaysOneToOne(pairs[..n]);
      assert forall k | 0 <= k <= n :: pairs[..n][..k] == pairs[..k];
      assert pairs[..n + 1] == pairs;
      if IsMatching(pairs[..n]) {
        assert OneToOne(AllAssociated(pairs[..n])) by {
          assert pairs[..n][..n] == pairs[..n];
        }
        LastMatches(pairs);
      } else {
        MatchingSnoc(pairs);
      }
      assert forall k | 0 <= k <= |pairs| :: k <= n || pairs[..k] == pairs;
    }
  }

  ghost predicate LastFits<T(!new), R(!new)>(pairs: seq<(R, T)>)
    requires pairs != []
  {
    var (request, task) := pairs[|pairs| - 1];
    forall i | 0 <= i < |pairs| - 1 :: pairs[i].0 == request <==> pairs[i].1 == task
  }

  lemma MatchingSnoc<T(!new), R(!new)>(pairs: seq<(R, T)>)
    requires pairs != []
    ensures IsMatching(pairs) <==> IsMatching(pairs[..|pairs| - 1]) && LastFits(pairs)
  {
  }

  lemma LastFitsState<T(!new), R(!new)>(pairs: seq<(R, T)>)
    requires pairs != [] && IsMatching(pairs[..|pairs| - 1])
    ensures var s, (request, task) := AllAssociated(pairs[..|pairs| - 1]), pairs[|pairs| - 1];
      LastFits(pairs) <==>
        && (request in s.requestsToTasks ==> s.requestsToTasks[request] == task)
        && (task in s.tasksToRequests ==> s.tasksToRequests[task] == request)
  {
    hide AllAssociated, IsMatching;
    var before := pairs[..|pairs| - 1];
    forall i | 0 <= i < |before| ensures
      var s := AllAssociated(before);
      && pairs[i].0 in s.requestsToTasks && s.requestsToTasks[pairs[i].0] == pairs[i].1
      && pairs[i].1 in s.tasksToRequests && s.tasksToRequests[pairs[i].1] == pairs[i].0
    {
      MatchingIsHeld(before, i);
    }
    KeysAreEnds(before);
  }

  lemma LastMatches<T(!new), R(!new)>(pairs: seq<(R, T)>)
    requires pairs != [] && IsMatching(pairs[..|pairs| - 1]) && OneToOne(AllAssociated(pairs[..|pairs| - 1]))
    ensures OneToOne(AllAssociated(pairs)) <==> IsMatching(pairs)
  {
    MatchingSnoc(pairs);
    LastFitsState(pairs);
    var n := |pairs| - 1;
    AssociatedIsOneToOne(AllAssociated(pairs[..n]), pairs[n].0, pairs[n].1);
    hide OneToOne, IsMatching, LastFits;
  }

  // ---------- The two events ----------

  datatype Step<T, R> =
    | Associate(request: R, task: T)
    | Completed(task: T)
    | MetricsGathered(task: T)

  /** gathersMetrics is false on the systems that deliver no metrics. */
  function Next<T, R>(s: State<T, R>, step: Step<T, R>, gathersMetrics: bool): (State<T, R>, Outcome<bool>) {
    match step
    case Associate(request, task) => (Associated(s, request, task), Returned(false))
    case Completed(task) =>
      if task !in s.taskEvents || s.taskEvents[task].completed then (s, FatalError)
      else if gathersMetrics && !s.taskEvents[task].metricsGathered then
        (s.(taskEvents := s.taskEvents[task := Events(true, false)]), Returned(false))
      else if task !in s.tasksToRequests then (s, FatalError)
      else (Removed(s, s.tasksToRequests[task], task), Returned(true))
    case MetricsGathered(task) =>
      if task !in s.taskEvents || s.taskEvents[task].metricsGathered then (s, FatalError)
      else if !s.taskEvents[task].completed then
        (s.(taskEvents := s.taskEvents[task := Events(false, true)]), Returned(false))
      else if task !in s.tasksToRequests then (s, FatalError)
      else (Removed(s, s.tasksToRequests[task], task), Returned(true))
  }

  // ---------- What a history means ----------

  ghost predicate Started<T(!new), R(!new)>(history: seq<Step<T, R>>, task: T) {
    exists request :: Associate(request, task) in history
  }

  /** Every event that the system delivers has been delivered. */
  ghost predicate Finished<T, R>(history: seq<Step<T, R>>, task: T, gathersMetrics: bool) {
    Completed(task) in history && (gathersMetrics ==> MetricsGathered(task) in history)
  }

  /** The next step associates a new task with a request that has none, or delivers an event for
      the first time to a task that has been associated. */
  ghost predicate Allowed<T(!new), R(!new)>(history: seq<Step<T, R>>, step: Step<T, R>, gathersMetrics: bool) {
    match step
    case Associate(request, task) =>
      !Started(history, task) && forall t | Associate(request, t) in history :: Finished(history, t, gathersMetrics)
    case Completed(task) => Started(history, task) && step !in history
    case MetricsGathered(task) => gathersMetrics && Started(history, task) && step !in history
  }

  ghost predicate Protocol<T(!new), R(!new)>(history: seq<Step<T, R>>, gathersMetrics: bool) {
    forall k | 0 <= k < |history| :: Allowed(history[..k], history[k], gathersMetrics)
  }

  /** The maps hold exactly the pairs that have been associated and not yet finished, with the
      events delivered so far. */
  ghost predicate Describes<T(!new), R(!new)>(s: State<T, R>, history: seq<Step<T, R>>, gathersMetrics: bool) {
    && OneToOne(s)
    && (forall t :: t in s.tasksToRequests <==> Started(history, t) && !Finished(history, t, gathersMetrics))
    && (forall t | t in s.tasksToRequests :: Associate(s.tasksToRequests[t], t) in history)
    && (forall t | t in s.taskEvents :: s.taskEvents[t] == Events(Completed(t) in history, MetricsGathered(t) in history))
  }

  /** Events are delivered to tasks after they have been associated. */
  ghost predicate EventsFollow<T(!new), R(!new)>(history: seq<Step<T, R>>, gathersMetrics: bool) {
    && (forall t | Completed(t) in history :: Started(history, t))
    && (forall t | MetricsGathered(t) in history :: gathersMetrics && Started(history, t))
  }

  lemma InLonger<T, R>(history: seq<Step<T, R>>, step: Step<T, R>)
    ensures forall x :: x in history + [step] <==> x in history || x == step
  {
  }

  lemma StartedLonger<T(!new), R(!new)>(history: seq<Step<T, R>>, step: Step<T, R>, t: T)
    ensures Started(history + [step], t) <==> Started(history, t) || (step.Associate? && step.task == t)
  {
    InLonger(history, step);
    if Started(history, t) {
      var request :| Associate(request, t) in history;
      assert Associate(request, t) in history + [step];
    }
    if step.Associate? && step.task == t {
      assert Associate(step.request, t) in history + [step];
    }
  }

  lemma EventsKeepFollowing<T(!new), R(!new)>(history: seq<Step<T, R>>, step: Step<T, R>, gathersMetrics: bool)
    requires EventsFollow(history, gathersMetrics) && Allowed(history, step, gathersMetrics)
    ensures EventsFollow(history + [step], gathersMetrics)
  {
    InLonger(history, step);
    forall t { StartedLonger(history, step, t); }
  }

  /** An event is fatal exactly if its task was never associated or it is a duplicate. */
  lemma FatalIffNotAllowed<T(!new), R(!new)>(s: State<T, R>, history: seq<Step<T, R>>, step: Step<T, R>, gathersMetrics: bool)
    requires Describes(s, history, gathersMetrics) && EventsFollow(history, gathersMetrics)
    requires step.Associate? || step.Completed? || (step.MetricsGathered? && gathersMetrics)
    ensures Next(s, step, gathersMetrics).1.FatalError? <==> !step.Associate? && !Allowed(history, step, gathersMetrics)
  {
  }

  /** A pair goes with exactly the last of its events, in either order. */
  lemma LastEventRemoves<T(!new), R(!new)>(s: State<T, R>, history: seq<Step<T, R>>, step: Step<T, R>, gathersMetrics: bool)
    requires Describes(s, history, gathersMetrics) && EventsFollow(history, gathersMetrics)
    requires Allowed(history, step, gathersMetrics)
    ensures Next(s, step, gathersMetrics).1 == Returned(!step.Associate? && Finished(history + [step], step.task, gathersMetrics))
  {
    InLonger(history, step);
  }

  /** How one more step changes what the history says of each task. */
  lemma LongerHistory<T(!new), R(!new)>(history: seq<Step<T, R>>, step: Step<T, R>)
    ensures forall t :: Started(history + [step], t) <==> Started(history, t) || (step.Associate? && step.task == t)
    ensures forall t :: Completed(t) in history + [step] <==> Completed(t) in history || step == Completed(t)
    ensures forall t :: MetricsGathered(t) in history + [step] <==> MetricsGathered(t) in history || step == MetricsGathered(t)
    ensures forall r, t | Associate(r, t) in history :: Associate(r, t) in history + [step]
  {
    InLonger(history, step);
    forall t { StartedLonger(history, step, t); }
  }

  lemma AssociateDescribes<T(!new), R(!new)>(s: State<T, R>, history: seq<Step<T, R>>, request: R, task: T, gathersMetrics: bool)
    requires Describes(s, history, gathersMetrics) && EventsFollow(history, gathersMetrics)
    requires Allowed(history, Associate(request, task), gathersMetrics)
    ensures Describes(Associated(s, request, task), history + [Associate(request, task)], gathersMetrics)
  {
    LongerHistory(history, Associate(request, task));
    assert forall r | r in s.requestsToTasks :: Associate(r, s.requestsToTasks[r]) in history;
    assert request !in s.requestsToTasks;
    AssociatedIsOneToOne(s, request, task);
    assert Associate(request, task) in history + [Associate(request, task)];
    hide OneToOne, Started;
  }

  /** The first of two events is only recorded. */
  lemma RecordDescribes<T(!new), R(!new)>(s: State<T, R>, history: seq<Step<T, R>>, step: Step<T, R>, events: Events, gathersMetrics: bool)
    requires Describes(s, history, gathersMetrics) && !step.Associate? && step.task in s.taskEvents && step !in history
    requires step.MetricsGathered? ==> gathersMetrics
    requires !Finished(history + [step], step.task, gathersMetrics)
    requires events == if step.Completed? then s.taskEvents[step.task].(completed := true) else s.taskEvents[step.task].(metricsGathered := true)
    ensures Describes(s.(taskEvents := s.taskEvents[step.task := events]), history + [step], gathersMetrics)
  {
    hide Started;
    LongerHistory(history, step);
  }

  /** The last event takes the pair away. */
  lemma RemoveDescribes<T(!new), R(!new)>(s: State<T, R>, history: seq<Step<T, R>>, step: Step<T, R>, gathersMetrics: bool)
    requires Describes(s, history, gathersMetrics) && !step.Associate? && step.task in s.tasksToRequests
    requires Finished(history + [step], step.task, gathersMetrics)
    ensures Describes(Removed(s, s.tasksToRequests[step.task], step.task), history + [step], gathersMetrics)
  {
    hide Started, OneToOne;
    LongerHistory(history, step);
    RemovedIsOneToOne(s, s.tasksToRequests[step.task], step.task);
    var s' := Removed(s, s.tasksToRequests[step.task], step.task);
    assert forall t :: t in s'.tasksToRequests <==> t in s.tasksToRequests && t != step.task;
  }

  lemma StepDescribes<T(!new), R(!new)>(s: State<T, R>, history: seq<Step<T, R>>, step: Step<T, R>, gathersMetrics: bool)
    requires Describes(s, history, gathersMetrics) && EventsFollow(history, gathersMetrics)
    requires Allowed(history, step, gathersMetrics)
    ensures Describes(Next(s, step, gathersMetrics).0, history + [step], gathersMetrics)
  {
    if step.Associate? {
      AssociateDescribes(s, history, step.request, step.task, gathersMetrics);
    } else {
      LastEventRemoves(s, history, step, gathersMetrics);
      if Finished(history + [step], step.task, gathersMetrics) {
        RemoveDescribes(s, history, step, gathersMetrics);
      } else {
        RecordDescribes(s, history, step, Next(s, step, gathersMetrics).0.taskEvents[step.task], gathersMetrics);
      }
    }
  }

  // ---------- The class ----------

  class RequestTaskMap<T(==), R(==)> {
    var tasksToRequests: map<T, R>
    var requestsToTasks: map<R, T>
    var taskEvents: map<T, Events>

    ghost function View(): State<T, R>
      reads this
    {
      State(tasksToRequests, requestsToTasks, taskEvents)
    }

    constructor ()
      ensures View() == State(map[], map[], map[])
    {
      tasksToRequests, requestsToTasks, taskEvents := map[], map[], map[];
    }

    /** subscript(_ request:) set */
    method SetTask(request: R, newValue: Option<T>) returns (outcome: Outcome<()>)
      modifies this
      ensures newValue.Some? ==> outcome == Returned(()) && View() == Associated(old(View()), request, newValue.value)
      ensures newValue.None? && request in old(requestsToTasks) ==>
        outcome == Returned(()) && View() == Removed(old(View()), request, old(requestsToTasks)[request])
      ensures newValue.None? && request !in old(requestsToTasks) ==> outcome == FatalError && View() == old(View())
    {
      if newValue.None? {
        if request !in requestsToTasks {
          return FatalError;
        }
        var task := requestsToTasks[request];
        requestsToTasks := requestsToTasks - {request};
        tasksToRequests := tasksToRequests - {task};
        taskEvents := taskEvents - {task};
      } else {
        var task := newValue.value;
        requestsToTasks := requestsToTasks[request := task];
        tasksToRequests := tasksToRequests[task := request];
        taskEvents := taskEvents[task := Events(false, false)];
      }
      return Returned(());
    }

    /** subscript(_ task:) set */
    method SetRequest(task: T, newValue: Option<R>) returns (outcome: Outcome<()>)
      modifies this
      ensures newValue.Some? ==> outcome == Returned(()) && View() == Associated(old(View()), newValue.value, task)
      ensures newValue.None? && task in old(tasksToRequests) ==>
        outcome == Returned(()) && View() == Removed(old(View()), old(tasksToRequests)[task], task)
      ensures newValue.None? && task !in old(tasksToRequests) ==> outcome == FatalError && View() == old(View())
    {
      if newValue.None? {
        if task !in tasksToRequests {
          return FatalError;
        }
        var request := tasksToRequests[task];
        tasksToRequests := tasksToRequests - {task};
        requestsToTasks := requestsToTasks - {request};
        taskEvents := taskEvents - {task};
      } else {
        var request := newValue.value;
        tasksToRequests := tasksToRequests[task := request];
        requestsToTasks := requestsToTasks[request := task];
        taskEvents := taskEvents[task := Events(false, false)];
      }
      return Returned(());
    }

    /** count; a consistent map never fails its precondition */
    method Count() returns (outcome: Outcome<nat>)
      ensures outcome == if |tasksToRequests| == |requestsToTasks| then Returned(|tasksToRequests|) else FatalError
      ensures OneToOne(View()) ==> outcome == Returned(|requestsToTasks|)
    {
      if OneToOne(View()) {
        InversesHaveOneSize(tasksToRequests, requestsToTasks);
      }
      outcome := if |tasksToRequests| == |requestsToTasks| then Returned(|tasksToRequests|) else FatalError;
    }

    method EventCount() returns (outcome: Outcome<nat>)
      ensures OneToOne(View()) ==> outcome == Returned(|tasksToRequests|)
      ensures outcome.Returned? ==> |taskEvents| == |tasksToRequests| == |requestsToTasks| == outcome.value
    {
      var count := Count();
      if OneToOne(View()) {
        assert |taskEvents.Keys| == |tasksToRequests.Keys|;
      }
      outcome := if count == Returned(|taskEvents|) then count else FatalError;
    }

    method IsEmpty() returns (outcome: Outcome<bool>)
      ensures OneToOne(View()) ==> outcome == Returned(View() == State(map[], map[], map[]))
      ensures outcome.Returned? ==> outcome.value == (tasksToRequests == map[]) == (requestsToTasks == map[])
    {
      if OneToOne(View()) {
        InversesHaveOneSize(tasksToRequests, requestsToTasks);
        assert |taskEvents.Keys| == |tasksToRequests.Keys|;
      }
      outcome := if (|tasksToRequests| == 0) == (|requestsToTasks| == 0) then Returned(|tasksToRequests| == 0) else FatalError;
    }

    /** disassociateIfNecessaryAfterGatheringMetricsForTask(_:) */
    method DisassociateAfterGatheringMetrics(task: T, gathersMetrics: bool) returns (outcome: Outcome<bool>)
      modifies this
      ensures (View(), outcome) == Next(old(View()), MetricsGathered(task), gathersMetrics)
    {
      if task !in taskEvents {
        return FatalError;
      }
      var events := taskEvents[task];
      if events.metricsGathered {
        outcome := FatalError;
      } else if !events.completed {
        taskEvents := taskEvents[task := Events(false, true)];
        outcome := Returned(false);
      } else {
        var removed := SetRequest(task, None);
        outcome := if removed.FatalError? then FatalError else Returned(true);
      }
    }

    /** disassociateIfNecessaryAfterCompletingTask(_:) */
    method DisassociateAfterCompleting(task: T, gathersMetrics: bool) returns (outcome: Outcome<bool>)
      modifies this
      ensures (View(), outcome) == Next(old(View()), Completed(task), gathersMetrics)
    {
      if task !in taskEvents {
        return FatalError;
      }
      var events := taskEvents[task];
      if events.completed {
        outcome := FatalError;
      } else if !events.metricsGathered && gathersMetrics {
        taskEvents := taskEvents[task := Events(true, false)];
        outcome := Returned(false);
      } else {
        var removed := SetRequest(task, None);
        outcome := if removed.FatalError? then FatalError else Returned(true);
      }
    }
  }

  /** After associations only, the count fails its precondition exactly if the pairs name different
      numbers of requests and tasks, whether or not the map is one to one. */
  method CountAssociated<T(==), R(==)>(pairs: seq<(R, T)>) returns (outcome: Outcome<nat>)
    ensures outcome == if |Requests(pairs)| == |Tasks(pairs)| then Returned(|Tasks(pairs)|) else FatalError
  {
    hide Requests, Tasks;
    var m := new RequestTaskMap();
    for k := 0 to |pairs|
      invariant m.View() == AllAssociated(pairs[..k])
    {
      assert pairs[..k + 1][..k] == pairs[..k];
      var _ := m.SetTask(pairs[k].0, Some(pairs[k].1));
    }
    assert pairs[..|pairs|] == pairs;
    KeysAreEnds(pairs);
    outcome := m.Count();
    assert |m.tasksToRequests| == |m.tasksToRequests.Keys| && |m.requestsToTasks| == |m.requestsToTasks.Keys|;
  }

  /** A request given a second task: the first task keeps pointing to it, and the count is fatal. */
  method CountAfterSecondTask<T(==), R(==)>(request: R, first: T, second: T) returns (outcome: Outcome<nat>)
    requires first != second
    ensures outcome == FatalError
    ensures !OneToOne(AllAssociated([(request, first), (request, second)]))
  {
    var pairs := [(request, first), (request, second)];
    outcome := CountAssociated(pairs);
    assert pairs[0].1 in Tasks(pairs) && pairs[1].1 in Tasks(pairs);
    assert Requests(pairs) == {request} && Tasks(pairs) == {first, second};
    assert pairs[..1] == [(request, first)] && pairs[..0] == [];
    var one := [(request, first)];
    assert pairs[..1] == one && one[..0] == [];
    assert AllAssociated(one) == State(map[first := request], map[request := first], map[first := Events(false, false)]);
    AssociatedIsOneToOne(AllAssociated(one), request, second);
  }

  // ---------- Whole runs ----------

  lemma NothingDescribed<T(!new), R(!new)>(gathersMetrics: bool)
    ensures Describes<T, R>(State(map[], map[], map[]), [], gathersMetrics) && EventsFollow<T, R>([], gathersMetrics)
  {
  }

  lemma PrefixProtocol<T(!new), R(!new)>(history: seq<Step<T, R>>, k: nat, gathersMetrics: bool)
    requires Protocol(history, gathersMetrics) && k < |history|
    ensures history[..k + 1] == history[..k] + [history[k]]
    ensures Allowed(history[..k], history[k], gathersMetrics)
  {
  }

  /** In every run that follows the protocol nothing is fatal, each pair goes with exactly the
      last of its events, and the maps hold exactly the unfinished pairs. */
  method Run<T(==,!new), R(==,!new)>(history: seq<Step<T, R>>, gathersMetrics: bool)
    returns (m: RequestTaskMap<T, R>, outcomes: seq<Outcome<bool>>)
    requires Protocol(history, gathersMetrics)
    ensures fresh(m) && Describes(m.View(), history, gathersMetrics) && |outcomes| == |history|
    ensures forall k | 0 <= k < |history| ::
      outcomes[k] == Returned(!history[k].Associate? && Finished(history[..k + 1], history[k].task, gathersMetrics))
  {
    hide Describes, EventsFollow, Protocol, Allowed, Next, Finished, Started, OneToOne;
    NothingDescribed<T, R>(gathersMetrics);
    m := new RequestTaskMap();
    assert history[..0] == [];
    outcomes := [];
    for k := 0 to |history|
      invariant fresh(m) && Describes(m.View(), history[..k], gathersMetrics) && EventsFollow(history[..k], gathersMetrics)
      invariant |outcomes| == k && forall i | 0 <= i < k ::
        outcomes[i] == Returned(!history[i].Associate? && Finished(history[..i + 1], history[i].task, gathersMetrics))
    {
      ghost var before, step := m.View(), history[k];
      PrefixProtocol(history, k, gathersMetrics);
      EventsKeepFollowing(history[..k], step, gathersMetrics);
      StepDescribes(before, history[..k], step, gathersMetrics);
      LastEventRemoves(before, history[..k], step, gathersMetrics);
      var outcome := TakeStep(m, history[k], gathersMetrics);
      outcomes := outcomes + [outcome];
    }
    assert history[..|history|] == history;
  }

  method TakeStep<T(==), R(==)>(m: RequestTaskMap<T, R>, step: Step<T, R>, gathersMetrics: bool) returns (outcome: Outcome<bool>)
    modifies m
    ensures (m.View(), outcome) == Next(old(m.View()), step, gathersMetrics)
  {
    match step
    case Associate(request, task) =>
      var _ := m.SetTask(request, Some(task));
      outcome := Returned(false);
    case Completed(task) => outcome := m.DisassociateAfterCompleting(task, gathersMetrics);
    case MetricsGathered(task) => outcome := m.DisassociateAfterGatheringMetrics(task, gathersMetrics);
  }
}
