/** AuthenticationInterceptor.swift: the state behind the lock, the blocks it hands to the
    serial queue, and every interleaving of clients, queue and authenticator. */
module Authentication {
  import opened Collections

  datatype Credential = Credential(token: nat)

  datatype AuthenticationError = MissingCredential | ExcessiveRefresh | RefreshFailed(code: nat)

  datatype RefreshWindow = RefreshWindow(interval: real, maximumAttempts: int)

  datatype AdaptAnswer = Adapted(credential: Credential) | AdaptFailed(error: AuthenticationError)

  datatype RetryAnswer = Retry | DoNotRetry | DoNotRetryWithError(error: AuthenticationError)

  datatype AdaptResult = DoAdapt(credential: Credential) | DoNotAdapt(error: AuthenticationError) | AdaptDeferred

  datatype RefreshResult = Success(credential: Credential) | Failure(error: AuthenticationError)

  /** A block on the interceptor's serial queue.  Adapt operations and retry completions
      are known by the numbers their callers submitted them under. */
  datatype Block =
    | StartRefresh(credential: Credential)
    | DrainSuccess(adapts: seq<nat>, retries: seq<nat>)
    | DrainFailure(error: AuthenticationError, adapts: seq<nat>, retries: seq<nat>)

  /** MutableState together with the queue its critical sections append to. */
  datatype Shared = Shared(
    credential: Option<Credential>,
    isRefreshing: bool,
    refreshTimestamps: seq<real>,
    adaptOperations: seq<nat>,
    requestsToRetry: seq<nat>,
    queue: seq<Block>)

  // ---------- The critical sections as functions ----------

  /** How many timestamps are at least `from`. */
  function CountSince(timestamps: seq<real>, from: real): nat {
    if timestamps == [] then 0 else
    CountSince(timestamps[..|timestamps| - 1], from) + (if from <= timestamps[|timestamps| - 1] then 1 else 0)
  }

  function IsExcessive(window: Option<RefreshWindow>, timestamps: seq<real>, now: real): bool {
    window.Some? && CountSince(timestamps, now - window.value.interval) >= window.value.maximumAttempts
  }

  function AfterFailure(s: Shared, error: AuthenticationError): Shared {
    s.(adaptOperations := [], requestsToRetry := [], isRefreshing := false,
       queue := s.queue + [DrainFailure(error, s.adaptOperations, s.requestsToRetry)])
  }

  function AfterSuccess(s: Shared, credential: Credential): Shared {
    s.(credential := Some(credential), adaptOperations := [], requestsToRetry := [], isRefreshing := false,
       queue := s.queue + [DrainSuccess(s.adaptOperations, s.requestsToRetry)])
  }

  /** The clock is read for the check and once more for the recorded timestamp. */
  function AfterRefresh(window: Option<RefreshWindow>, s: Shared, credential: Credential, checked: real, recorded: real): Shared {
    if IsExcessive(window, s.refreshTimestamps, checked) then AfterFailure(s, ExcessiveRefresh)
    else s.(refreshTimestamps := s.refreshTimestamps + [recorded], isRefreshing := true,
            queue := s.queue + [StartRefresh(credential)])
  }

  /** What the clock and the credential show to one critical section. */
  datatype Reading = Reading(requiresRefresh: bool, checked: real, recorded: real)

  function AfterAdapt(window: Option<RefreshWindow>, s: Shared, op: nat, r: Reading): (Shared, AdaptResult) {
    if s.isRefreshing then
      (s.(adaptOperations := s.adaptOperations + [op]), AdaptDeferred)
    else if s.credential.None? then
      (s, DoNotAdapt(MissingCredential))
    else if r.requiresRefresh then
      (AfterRefresh(window, s.(adaptOperations := s.adaptOperations + [op]), s.credential.value, r.checked, r.recorded),
       AdaptDeferred)
    else
      (s, DoAdapt(s.credential.value))
  }

  function AfterRetry(window: Option<RefreshWindow>, s: Shared, op: nat, credential: Credential, r: Reading): Shared {
    var s' := s.(requestsToRetry := s.requestsToRetry + [op]);
    if s'.isRefreshing then s' else AfterRefresh(window, s', credential, r.checked, r.recorded)
  }

  // ---------- The interceptor ----------

  class AuthenticationInterceptor {
    const refreshWindow: Option<RefreshWindow>
    var credential: Option<Credential>
    var isRefreshing: bool
    var refreshTimestamps: seq<real>
    var adaptOperations: seq<nat>
    var requestsToRetry: seq<nat>
    var queue: seq<Block>

    ghost function View(): Shared
      reads this
    {
      Shared(credential, isRefreshing, refreshTimestamps, adaptOperations, requestsToRetry, queue)
    }

    constructor (credential: Option<Credential>, refreshWindow: Option<RefreshWindow>)
      ensures this.refreshWindow == refreshWindow
      ensures View() == Shared(credential, false, [], [], [], [])
    {
      this.credential, this.refreshWindow := credential, refreshWindow;
      isRefreshing, refreshTimestamps, adaptOperations, requestsToRetry, queue := false, [], [], [], [];
    }

    method IsRefreshExcessive(now: real) returns (excessive: bool)
      ensures excessive == IsExcessive(refreshWindow, refreshTimestamps, now)
    {
      if refreshWindow.None? {
        return false;
      }
      var refreshWindowMin := now - refreshWindow.value.interval;
      var attempts := 0;
      for i := 0 to |refreshTimestamps|
        invariant attempts == CountSince(refreshTimestamps[..i], refreshWindowMin)
      {
        assert refreshTimestamps[..i + 1][..i] == refreshTimestamps[..i];
        if refreshWindowMin <= refreshTimestamps[i] {
          attempts := attempts + 1;
        }
      }
      assert refreshTimestamps[..|refreshTimestamps|] == refreshTimestamps;
      excessive := attempts >= refreshWindow.value.maximumAttempts;
    }

    method HandleRefreshSuccess(credential: Credential)
      modifies this
      ensures View() == AfterSuccess(old(View()), credential)
    {
      this.credential := Some(credential);
      var adapts, retries := adaptOperations, requestsToRetry;
      adaptOperations, requestsToRetry := [], [];
      isRefreshing := false;
      queue := queue + [DrainSuccess(adapts, retries)];
    }

    method HandleRefreshFailure(error: AuthenticationError)
      modifies this
      ensures View() == AfterFailure(old(View()), error)
    {
      var adapts, retries := adaptOperations, requestsToRetry;
      adaptOperations, requestsToRetry := [], [];
      isRefreshing := false;
      queue := queue + [DrainFailure(error, adapts, retries)];
    }

    method Refresh(credential: Credential, checked: real, recorded: real)
      modifies this
      ensures View() == AfterRefresh(refreshWindow, old(View()), credential, checked, recorded)
    {
      var excessive := IsRefreshExcessive(checked);
      if excessive {
        HandleRefreshFailure(ExcessiveRefresh);
        return;
      }
      refreshTimestamps := refreshTimestamps + [recorded];
      isRefreshing := true;
      queue := queue + [StartRefresh(credential)];
    }

    /** The locked part of adapt; its result says whether and how to complete the operation. */
    method Adapt(op: nat, r: Reading) returns (result: AdaptResult)
      modifies this
      ensures (View(), result) == AfterAdapt(refreshWindow, old(View()), op, r)
    {
      if isRefreshing {
        adaptOperations := adaptOperations + [op];
        return AdaptDeferred;
      }
      if credential.None? {
        return DoNotAdapt(MissingCredential);
      }
      if r.requiresRefresh {
        adaptOperations := adaptOperations + [op];
        Refresh(credential.value, r.checked, r.recorded);
        return AdaptDeferred;
      }
      return DoAdapt(credential.value);
    }

    /** The locked part of retry; `credential` was read before, under an earlier lock. */
    method RetryLater(op: nat, credential: Credential, r: Reading)
      modifies this
      ensures View() == AfterRetry(refreshWindow, old(View()), op, credential, r)
    {
      requestsToRetry := requestsToRetry + [op];
      if isRefreshing {
        return;
      }
      Refresh(credential, r.checked, r.recorded);
    }
  }

  // ---------- All interleavings ----------

  /** The shared state, the refreshes the authenticator is busy with, what threads hold between
      two critical sections, the clock, what was answered, and when the authenticator was called.
      A retry holds the credential it has read until it answers or takes the lock again; an adapt
      operation holds the answer decided under the lock until it gives it.  `serving` is the
      operation the serial queue is occupied with. */
  datatype World = World(
    shared: Shared,
    inFlight: seq<Credential>,
    retriesInHand: map<nat, Option<Credential>>,
    adaptsInHand: map<nat, AdaptAnswer>,
    serving: Option<nat>,
    clock: real,
    adaptsSubmitted: set<nat>,
    retriesSubmitted: set<nat>,
    adaptAnswers: seq<(nat, AdaptAnswer)>,
    retryAnswers: seq<(nat, RetryAnswer)>,
    refreshCalls: seq<real>)

  datatype Event =
    | ClientAdapts(op: nat, reading: Reading)
    | AdaptCompletes(op: nat)
    | RetryRefused(op: nat)
    | RetryReads(op: nat)
    | RetryEnds(op: nat)
    | RetryLocks(op: nat, reading: Reading)
    | QueueRuns(reading: Reading)
    | RefreshCompletes(which: nat, result: RefreshResult)
    | CredentialSet(credential: Option<Credential>)

  function Start(credential: Option<Credential>): World {
    World(Shared(credential, false, [], [], [], []), [], map[], map[], None, 0.0, {}, {}, [], [], [])
  }

  predicate ClockAdvances(w: World, r: Reading) {
    w.clock <= r.checked <= r.recorded
  }

  /** The answer a decision leads to once the lock is released */
  function AnswerTo(result: AdaptResult): Option<AdaptAnswer> {
    match result
    case DoAdapt(c) => Some(Adapted(c))
    case DoNotAdapt(e) => Some(AdaptFailed(e))
    case AdaptDeferred => None
  }

  /** The critical section of adapt. */
  function AdaptLocks(window: Option<RefreshWindow>, w: World, op: nat, r: Reading): World {
    var (s, result) := AfterAdapt(window, w.shared, op, r);
    var answer := AnswerTo(result);
    w.(shared := s, clock := r.recorded,
       adaptsInHand := if answer.Some? then w.adaptsInHand[op := answer.value] else w.adaptsInHand)
  }

  /** What follows the critical section: the answer is given. */
  function AdaptAnswers(w: World, op: nat): World
    requires op in w.adaptsInHand
  {
    w.(adaptAnswers := w.adaptAnswers + [(op, w.adaptsInHand[op])], adaptsInHand := w.adaptsInHand - {op},
       serving := if w.serving == Some(op) then None else w.serving)
  }

  /** One step of the block at the head of the queue: call the authenticator, or serve the next
      operation of a drain, which occupies the queue until it is answered or deferred again; an
      exhausted drain is taken off the queue. */
  function QueueStep(window: Option<RefreshWindow>, w: World, r: Reading): World
    requires w.shared.queue != []
  {
    var rest := w.shared.queue[1..];
    match w.shared.queue[0]
    case StartRefresh(c) =>
      w.(shared := w.shared.(queue := rest), inFlight := w.inFlight + [c],
         refreshCalls := w.refreshCalls + [r.recorded], clock := r.recorded)
    case DrainSuccess(adapts, retries) =>
      if adapts != [] then
        var w' := w.(shared := w.shared.(queue := [DrainSuccess(adapts[1..], retries)] + rest));
        var answer := AnswerTo(AfterAdapt(window, w'.shared, adapts[0], r).1);
        AdaptLocks(window, w', adapts[0], r).(serving := if answer.Some? then Some(adapts[0]) else None)
      else if retries != [] then
        w.(shared := w.shared.(queue := [DrainSuccess([], retries[1..])] + rest),
           retryAnswers := w.retryAnswers + [(retries[0], Retry)])
      else
        w.(shared := w.shared.(queue := rest))
    case DrainFailure(e, adapts, retries) =>
      if adapts != [] then
        w.(shared := w.shared.(queue := [DrainFailure(e, adapts[1..], retries)] + rest),
           adaptAnswers := w.adaptAnswers + [(adapts[0], AdaptFailed(e))])
      else if retries != [] then
        w.(shared := w.shared.(queue := [DrainFailure(e, [], retries[1..])] + rest),
           retryAnswers := w.retryAnswers + [(retries[0], DoNotRetryWithError(e))])
      else
        w.(shared := w.shared.(queue := rest))
  }

  predicate Enabled(w: World, e: Event) {
    match e
    case ClientAdapts(op, r) => op !in w.adaptsSubmitted && ClockAdvances(w, r)
    case AdaptCompletes(op) => op in w.adaptsInHand
    case RetryRefused(op) => op !in w.retriesSubmitted
    case RetryReads(op) => op !in w.retriesSubmitted
    case RetryEnds(op) => op in w.retriesInHand
    case RetryLocks(op, r) => op in w.retriesInHand && w.retriesInHand[op].Some? && ClockAdvances(w, r)
    case QueueRuns(r) => w.shared.queue != [] && w.serving.None? && ClockAdvances(w, r)
    case RefreshCompletes(which, _) => which < |w.inFlight|
    case CredentialSet(_) => true
  }

  /** A retry ends without the lock if it read no credential, or if the authenticator finds the
      request authenticated with another one. */
  function Step(window: Option<RefreshWindow>, w: World, e: Event): World
    requires Enabled(w, e)
  {
    match e
    case ClientAdapts(op, r) =>
      AdaptLocks(window, w.(adaptsSubmitted := w.adaptsSubmitted + {op}), op, r)
    case AdaptCompletes(op) =>
      AdaptAnswers(w, op)
    case RetryRefused(op) =>
      w.(retriesSubmitted := w.retriesSubmitted + {op}, retryAnswers := w.retryAnswers + [(op, DoNotRetry)])
    case RetryReads(op) =>
      w.(retriesSubmitted := w.retriesSubmitted + {op}, retriesInHand := w.retriesInHand[op := w.shared.credential])
    case RetryEnds(op) =>
      var answer := if w.retriesInHand[op].None? then DoNotRetryWithError(MissingCredential) else Retry;
      w.(retriesInHand := w.retriesInHand - {op}, retryAnswers := w.retryAnswers + [(op, answer)])
    case RetryLocks(op, r) =>
      w.(shared := AfterRetry(window, w.shared, op, w.retriesInHand[op].value, r),
         retriesInHand := w.retriesInHand - {op}, clock := r.recorded)
    case QueueRuns(r) =>
      QueueStep(window, w, r)
    case RefreshCompletes(which, result) =>
      w.(inFlight := w.inFlight[..which] + w.inFlight[which + 1..],
         shared := match result
                   case Success(c) => AfterSuccess(w.shared, c)
                   case Failure(e) => AfterFailure(w.shared, e))
    case CredentialSet(c) =>
      w.(shared := w.shared.(credential := c))
  }

  /** The world after a run, if each of its events was enabled in turn. */
  function Run(window: Option<RefreshWindow>, start: Option<Credential>, events: seq<Event>): Option<World> {
    if events == [] then Some(Start(start)) else
    var w := Run(window, start, events[..|events| - 1]);
    var e := events[|events| - 1];
    if w.Some? && Enabled(w.value, e) then Some(Step(window, w.value, e)) else None
  }

  // ---------- Exactly once ----------

  function Count(s: seq<nat>, op: nat): nat {
    multiset(s)[op]
  }

  function Adapts(b: Block): seq<nat> {
    if b.StartRefresh? then [] else b.adapts
  }

  function Retries(b: Block): seq<nat> {
    if b.StartRefresh? then [] else b.retries
  }

  function AdaptsIn(queue: seq<Block>, op: nat): nat {
    if queue == [] then 0 else Count(Adapts(queue[0]), op) + AdaptsIn(queue[1..], op)
  }

  function RetriesIn(queue: seq<Block>, op: nat): nat {
    if queue == [] then 0 else Count(Retries(queue[0]), op) + RetriesIn(queue[1..], op)
  }

  function RefreshesIn(queue: seq<Block>): nat {
    if queue == [] then 0 else (if queue[0].StartRefresh? then 1 else 0) + RefreshesIn(queue[1..])
  }

  function Ops<A>(answers: seq<(nat, A)>): (ops: seq<nat>)
    ensures |ops| == |answers|
  {
    seq(|answers|, i requires 0 <= i < |answers| => answers[i].0)
  }

  /** In how many places an adapt operation is: waiting for a refresh, in a drain block, decided
      under the lock and about to be answered, answered. */
  function AdaptPlaces(w: World, op: nat): nat {
    Count(w.shared.adaptOperations, op) + AdaptsIn(w.shared.queue, op) + Count(Ops(w.adaptAnswers), op)
    + (if op in w.adaptsInHand then 1 else 0)
  }

  /** The same for a retry, which may also be between reading the credential and what it does next. */
  function RetryPlaces(w: World, op: nat): nat {
    Count(w.shared.requestsToRetry, op) + RetriesIn(w.shared.queue, op) + Count(Ops(w.retryAnswers), op)
    + (if op in w.retriesInHand then 1 else 0)
  }

  /** A refresh is under way exactly while isRefreshing is set, and then just one; otherwise
      nobody waits for one. */
  ghost predicate OneRefresh(w: World) {
    && RefreshesIn(w.shared.queue) + |w.inFlight| == (if w.shared.isRefreshing then 1 else 0)
    && (!w.shared.isRefreshing ==> w.shared.adaptOperations == [] && w.shared.requestsToRetry == [])
  }

  ghost predicate InOnePlace(w: World, op: nat) {
    && AdaptPlaces(w, op) == (if op in w.adaptsSubmitted then 1 else 0)
    && RetryPlaces(w, op) == (if op in w.retriesSubmitted then 1 else 0)
  }

  /** Each submitted operation is in exactly one place, any other in none, and what the queue
      serves is about to be answered. */
  ghost predicate Inv(w: World) {
    OneRefresh(w) && (w.serving.Some? ==> w.serving.value in w.adaptsInHand) && forall op :: InOnePlace(w, op)
  }

  /** The operation whose decision a step makes, if it takes the lock for an adapt operation */
  function DecidedBy(w: World, e: Event): Option<nat> {
    if e.ClientAdapts? then Some(e.op)
    else if e.QueueRuns? && w.shared.queue != [] && w.shared.queue[0].DrainSuccess? && w.shared.queue[0].adapts != [] then
      Some(w.shared.queue[0].adapts[0])
    else None
  }

  /** What a step puts into a hand is not held already. */
  predicate HandsFree(w: World, e: Event) {
    && (DecidedBy(w, e).Some? ==> DecidedBy(w, e).value !in w.adaptsInHand)
    && (e.RetryReads? ==> e.op !in w.retriesInHand)
  }

  lemma {:induction false} QueueConcat(a: seq<Block>, b: seq<Block>, op: nat)
    ensures AdaptsIn(a + b, op) == AdaptsIn(a, op) + AdaptsIn(b, op)
    ensures RetriesIn(a + b, op) == RetriesIn(a, op) + RetriesIn(b, op)
    ensures RefreshesIn(a + b) == RefreshesIn(a) + RefreshesIn(b)
  {
    hide Count;
    if a == [] {
      assert a + b == b;
    } else {
      QueueConcat(a[1..], b, op);
      assert (a + b)[1..] == a[1..] + b;
    }
  }

  lemma QueueSnoc(queue: seq<Block>, b: Block, op: nat)
    ensures AdaptsIn(queue + [b], op) == AdaptsIn(queue, op) + Count(Adapts(b), op)
    ensures RetriesIn(queue + [b], op) == RetriesIn(queue, op) + Count(Retries(b), op)
    ensures RefreshesIn(queue + [b]) == RefreshesIn(queue) + (if b.StartRefresh? then 1 else 0)
  {
    QueueConcat(queue, [b], op);
  }

  /** Replacing the head block changes the counts by the difference of the two blocks. */
  lemma HeadReplaced(queue: seq<Block>, b: Block, op: nat)
    requires queue != []
    ensures AdaptsIn([b] + queue[1..], op) + Count(Adapts(queue[0]), op) == AdaptsIn(queue, op) + Count(Adapts(b), op)
    ensures RetriesIn([b] + queue[1..], op) + Count(Retries(queue[0]), op) == RetriesIn(queue, op) + Count(Retries(b), op)
    ensures !b.StartRefresh? && !queue[0].StartRefresh? ==> RefreshesIn([b] + queue[1..]) == RefreshesIn(queue)
  {
    assert ([b] + queue[1..])[1..] == queue[1..];
  }

  lemma EmptyDrain(queue: seq<Block>, op: nat)
    requires queue != [] && !queue[0].StartRefresh? && queue[0].adapts == [] && queue[0].retries == []
    ensures AdaptsIn(queue[1..], op) == AdaptsIn(queue, op) && RetriesIn(queue[1..], op) == RetriesIn(queue, op)
    ensures RefreshesIn(queue[1..]) == RefreshesIn(queue)
  {
  }

  lemma CountSnoc(s: seq<nat>, x: nat, op: nat)
    ensures Count(s + [x], op) == Count(s, op) + (if x == op then 1 else 0)
  {
  }

  lemma CountFirst(s: seq<nat>, op: nat)
    requires s != []
    ensures Count(s, op) == (if s[0] == op then 1 else 0) + Count(s[1..], op)
  {
    assert s == [s[0]] + s[1..];
  }

  lemma OpsSnoc<A>(answers: seq<(nat, A)>, x: nat, answer: A, op: nat)
    ensures Count(Ops(answers + [(x, answer)]), op) == Count(Ops(answers), op) + (if x == op then 1 else 0)
  {
    assert Ops(answers + [(x, answer)]) == Ops(answers) + [x];
  }

  /** Starting or refusing a refresh moves operations between the waiting lists and the queue. */
  lemma RefreshConserves(window: Option<RefreshWindow>, s: Shared, c: Credential, r: Reading, op: nat)
    requires !s.isRefreshing
    ensures var s' := AfterRefresh(window, s, c, r.checked, r.recorded);
      && Count(s'.adaptOperations, op) + AdaptsIn(s'.queue, op) == Count(s.adaptOperations, op) + AdaptsIn(s.queue, op)
      && Count(s'.requestsToRetry, op) + RetriesIn(s'.queue, op) == Count(s.requestsToRetry, op) + RetriesIn(s.queue, op)
      && RefreshesIn(s'.queue) == RefreshesIn(s.queue) + (if s'.isRefreshing then 1 else 0)
      && (!s'.isRefreshing ==> s'.adaptOperations == [] && s'.requestsToRetry == [])
  {
    QueueSnoc(s.queue, DrainFailure(ExcessiveRefresh, s.adaptOperations, s.requestsToRetry), op);
    QueueSnoc(s.queue, StartRefresh(c), op);
  }

  /** The critical section of adapt puts its operation in exactly one place and moves no other. */
  lemma AdaptLocksPlaces(window: Option<RefreshWindow>, w: World, x: nat, r: Reading, op: nat)
    requires OneRefresh(w) && x !in w.adaptsInHand
    ensures var w' := AdaptLocks(window, w, x, r);
      && AdaptPlaces(w', op) == AdaptPlaces(w, op) + (if x == op then 1 else 0)
      && RetryPlaces(w', op) == RetryPlaces(w, op)
      && OneRefresh(w')
  {
    hide AdaptsIn, RetriesIn, RefreshesIn, Count, AfterRefresh;
    var s := w.shared;
    CountSnoc(s.adaptOperations, x, op);
    if !s.isRefreshing && s.credential.Some? && r.requiresRefresh {
      RefreshConserves(window, s.(adaptOperations := s.adaptOperations + [x]), s.credential.value, r, op);
    }
  }

  lemma AdaptAnswersPlaces(w: World, x: nat, op: nat)
    requires x in w.adaptsInHand
    ensures AdaptPlaces(AdaptAnswers(w, x), op) == AdaptPlaces(w, op)
  {
    OpsSnoc(w.adaptAnswers, x, w.adaptsInHand[x], op);
  }

  /** The next operation of a drain leaves its block. */
  lemma HeadTaken(w: World, op: nat)
    requires OneRefresh(w) && w.shared.queue != [] && w.shared.queue[0].DrainSuccess? && w.shared.queue[0].adapts != []
    ensures var b := w.shared.queue[0];
      var w' := w.(shared := w.shared.(queue := [DrainSuccess(b.adapts[1..], b.retries)] + w.shared.queue[1..]));
      && AdaptPlaces(w', op) + (if op == b.adapts[0] then 1 else 0) == AdaptPlaces(w, op)
      && RetryPlaces(w', op) == RetryPlaces(w, op)
      && OneRefresh(w')
  {
    hide AdaptsIn, RetriesIn, RefreshesIn, Count;
    var queue := w.shared.queue;
    CountFirst(queue[0].adapts, op);
    HeadReplaced(queue, DrainSuccess(queue[0].adapts[1..], queue[0].retries), op);
  }

  lemma DrainSuccessPlaces(window: Option<RefreshWindow>, w: World, r: Reading, op: nat)
    requires OneRefresh(w) && w.shared.queue != [] && w.shared.queue[0].DrainSuccess?
    requires HandsFree(w, QueueRuns(r))
    ensures var w' := QueueStep(window, w, r);
      AdaptPlaces(w', op) == AdaptPlaces(w, op) && RetryPlaces(w', op) == RetryPlaces(w, op) && OneRefresh(w')
  {
    hide AfterAdapt, AdaptLocks, AdaptsIn, RetriesIn, RefreshesIn, Count;
    var queue := w.shared.queue;
    var adapts, retries := queue[0].adapts, queue[0].retries;
    if adapts != [] {
      var w' := w.(shared := w.shared.(queue := [DrainSuccess(adapts[1..], retries)] + queue[1..]));
      HeadTaken(w, op);
      AdaptLocksPlaces(window, w', adapts[0], r, op);
    } else if retries != [] {
      CountFirst(retries, op);
      HeadReplaced(queue, DrainSuccess([], retries[1..]), op);
      OpsSnoc(w.retryAnswers, retries[0], Retry, op);
    } else {
      EmptyDrain(queue, op);
    }
  }

  lemma DrainFailurePlaces(window: Option<RefreshWindow>, w: World, r: Reading, op: nat)
    requires OneRefresh(w) && w.shared.queue != [] && w.shared.queue[0].DrainFailure?
    ensures var w' := QueueStep(window, w, r);
      AdaptPlaces(w', op) == AdaptPlaces(w, op) && RetryPlaces(w', op) == RetryPlaces(w, op) && OneRefresh(w')
  {
    hide AdaptsIn, RetriesIn, RefreshesIn, Count;
    var queue := w.shared.queue;
    var e, adapts, retries := queue[0].error, queue[0].adapts, queue[0].retries;
    if adapts != [] {
      CountFirst(adapts, op);
      HeadReplaced(queue, DrainFailure(e, adapts[1..], retries), op);
      OpsSnoc(w.adaptAnswers, adapts[0], AdaptFailed(e), op);
    } else if retries != [] {
      CountFirst(retries, op);
      HeadReplaced(queue, DrainFailure(e, [], retries[1..]), op);
      OpsSnoc(w.retryAnswers, retries[0], DoNotRetryWithError(e), op);
    } else {
      EmptyDrain(queue, op);
    }
  }

  /** Running the queue serves operations without losing or repeating any. */
  lemma QueueStepPlaces(window: Option<RefreshWindow>, w: World, r: Reading, op: nat)
    requires OneRefresh(w) && w.shared.queue != [] && HandsFree(w, QueueRuns(r))
    ensures var w' := QueueStep(window, w, r);
      AdaptPlaces(w', op) == AdaptPlaces(w, op) && RetryPlaces(w', op) == RetryPlaces(w, op) && OneRefresh(w')
  {
    if w.shared.queue[0].DrainSuccess? {
      DrainSuccessPlaces(window, w, r, op);
    } else if w.shared.queue[0].DrainFailure? {
      DrainFailurePlaces(window, w, r, op);
    }
  }

  lemma RetryLocksPlaces(window: Option<RefreshWindow>, w: World, x: nat, r: Reading, op: nat)
    requires OneRefresh(w) && Enabled(w, RetryLocks(x, r))
    ensures var w' := Step(window, w, RetryLocks(x, r));
      AdaptPlaces(w', op) == AdaptPlaces(w, op) && RetryPlaces(w', op) == RetryPlaces(w, op) && OneRefresh(w')
  {
    var s := w.shared;
    CountSnoc(s.requestsToRetry, x, op);
    if !s.isRefreshing {
      RefreshConserves(window, s.(requestsToRetry := s.requestsToRetry + [x]), w.retriesInHand[x].value, r, op);
    }
  }

  lemma RefreshCompletesPlaces(window: Option<RefreshWindow>, w: World, which: nat, result: RefreshResult, op: nat)
    requires OneRefresh(w) && which < |w.inFlight|
    ensures var w' := Step(window, w, RefreshCompletes(which, result));
      AdaptPlaces(w', op) == AdaptPlaces(w, op) && RetryPlaces(w', op) == RetryPlaces(w, op) && OneRefresh(w')
  {
    hide AdaptsIn, RetriesIn, RefreshesIn;
    var s := w.shared;
    match result {
      case Success(_) => QueueSnoc(s.queue, DrainSuccess(s.adaptOperations, s.requestsToRetry), op);
      case Failure(e) => QueueSnoc(s.queue, DrainFailure(e, s.adaptOperations, s.requestsToRetry), op);
    }
  }

  lemma RetryEndsPlaces(window: Option<RefreshWindow>, w: World, x: nat, op: nat)
    requires x in w.retriesInHand
    ensures RetryPlaces(Step(window, w, RetryEnds(x)), op) == RetryPlaces(w, op)
  {
    OpsSnoc(w.retryAnswers, x, if w.retriesInHand[x].None? then DoNotRetryWithError(MissingCredential) else Retry, op);
  }

  /** What a step adds to an operation's places is exactly its submission. */
  lemma StepPlaces(window: Option<RefreshWindow>, w: World, e: Event, op: nat)
    requires OneRefresh(w) && Enabled(w, e) && HandsFree(w, e)
    ensures var w' := Step(window, w, e);
      && AdaptPlaces(w', op) == AdaptPlaces(w, op) + (if e.ClientAdapts? && e.op == op then 1 else 0)
      && RetryPlaces(w', op) == RetryPlaces(w, op) + (if (e.RetryRefused? || e.RetryReads?) && e.op == op then 1 else 0)
      && OneRefresh(w')
  {
    hide QueueStep, AdaptLocks, AfterRetry, AdaptsIn, RetriesIn, RefreshesIn, Count;
    match e {
      case ClientAdapts(x, r) =>
        AdaptLocksPlaces(window, w.(adaptsSubmitted := w.adaptsSubmitted + {x}), x, r, op);
      case AdaptCompletes(x) =>
        AdaptAnswersPlaces(w, x, op);
      case RetryRefused(x) =>
        OpsSnoc(w.retryAnswers, x, DoNotRetry, op);
      case RetryReads(_) =>
      case RetryEnds(x) =>
        RetryEndsPlaces(window, w, x, op);
      case RetryLocks(x, r) =>
        RetryLocksPlaces(window, w, x, r, op);
      case QueueRuns(r) =>
        QueueStepPlaces(window, w, r, op);
      case RefreshCompletes(which, result) =>
        RefreshCompletesPlaces(window, w, which, result, op);
      case CredentialSet(_) =>
    }
  }

  /** Each operation is in one place, so what is decided or read is in no hand yet. */
  lemma InvFreesHands(w: World, e: Event)
    requires Inv(w) && Enabled(w, e)
    ensures HandsFree(w, e)
  {
    if DecidedBy(w, e).Some? {
      var op := DecidedBy(w, e).value;
      assert InOnePlace(w, op);
      if e.QueueRuns? {
        CountFirst(w.shared.queue[0].adapts, op);
      }
    }
    if e.RetryReads? {
      assert InOnePlace(w, e.op);
    }
  }

  lemma StepKeepsServing(window: Option<RefreshWindow>, w: World, e: Event)
    requires Inv(w) && Enabled(w, e)
    ensures var w' := Step(window, w, e); w'.serving.Some? ==> w'.serving.value in w'.adaptsInHand
  {
  }

  lemma SubmittedAfterStep(window: Option<RefreshWindow>, w: World, e: Event)
    requires Enabled(w, e)
    ensures Step(window, w, e).adaptsSubmitted == w.adaptsSubmitted + (if e.ClientAdapts? then {e.op} else {})
    ensures Step(window, w, e).retriesSubmitted == w.retriesSubmitted + (if e.RetryRefused? || e.RetryReads? then {e.op} else {})
  {
  }

  lemma StepKeepsInv(window: Option<RefreshWindow>, w: World, e: Event)
    requires Inv(w) && Enabled(w, e)
    ensures Inv(Step(window, w, e))
  {
    hide Step, AdaptPlaces, RetryPlaces;
    SubmittedAfterStep(window, w, e);
    InvFreesHands(w, e);
    StepKeepsServing(window, w, e);
    forall op: nat ensures InOnePlace(Step(window, w, e), op) {
      assert InOnePlace(w, op);
      StepPlaces(window, w, e, op);
    }
    StepPlaces(window, w, e, 0);
  }

  /** Main result: the invariant holds after every run. */
  lemma {:induction false} EveryRunKeepsInv(window: Option<RefreshWindow>, start: Option<Credential>, events: seq<Event>)
    requires Run(window, start, events).Some?
    ensures Inv(Run(window, start, events).value)
  {
    if events == [] {
      assert forall op :: InOnePlace(Start(start), op);
    } else {
      EveryRunKeepsInv(window, start, events[..|events| - 1]);
      StepKeepsInv(window, Run(window, start, events[..|events| - 1]).value, events[|events| - 1]);
    }
  }

  /** In no run is an operation answered twice, nor one answered that still waits. */
  lemma NobodyIsAnsweredTwice(window: Option<RefreshWindow>, start: Option<Credential>, events: seq<Event>, i: nat, j: nat)
    requires Run(window, start, events).Some?
    ensures var w := Run(window, start, events).value;
      && (i < j < |w.adaptAnswers| ==> w.adaptAnswers[i].0 != w.adaptAnswers[j].0)
      && (i < |w.adaptAnswers| ==> w.adaptAnswers[i].0 in w.adaptsSubmitted && w.adaptAnswers[i].0 !in w.shared.adaptOperations)
      && (i < j < |w.retryAnswers| ==> w.retryAnswers[i].0 != w.retryAnswers[j].0)
      && (i < |w.retryAnswers| ==> w.retryAnswers[i].0 in w.retriesSubmitted && w.retryAnswers[i].0 !in w.shared.requestsToRetry)
  {
    EveryRunKeepsInv(window, start, events);
    var w := Run(window, start, events).value;
    if i < |w.adaptAnswers| {
      assert InOnePlace(w, w.adaptAnswers[i].0);
      OccurrencesCount(Ops(w.adaptAnswers), i, j);
    }
    if i < |w.retryAnswers| {
      assert InOnePlace(w, w.retryAnswers[i].0);
      OccurrencesCount(Ops(w.retryAnswers), i, j);
    }
  }

  lemma OccurrencesCount(ops: seq<nat>, i: nat, j: nat)
    requires i < |ops|
    ensures Count(ops, ops[i]) >= 1
    ensures i < j < |ops| && ops[i] == ops[j] ==> Count(ops, ops[i]) >= 2
  {
    assert ops[i] in multiset(ops);
    if i < j < |ops| && ops[i] == ops[j] {
      assert ops == ops[..j] + [ops[j]] + ops[j + 1..];
      assert ops[..j][i] == ops[i] && ops[i] in multiset(ops[..j]);
    }
  }

  /** No block is queued, no refresh is in flight and no thread is between two critical sections. */
  predicate AtRest(w: World) {
    w.shared.queue == [] && w.inFlight == [] && w.retriesInHand == map[] && w.adaptsInHand == map[]
  }

  /** Nothing is stranded: at rest every submitted operation has been answered, once. */
  lemma NobodyIsStranded(window: Option<RefreshWindow>, start: Option<Credential>, events: seq<Event>, op: nat)
    requires Run(window, start, events).Some? && AtRest(Run(window, start, events).value)
    ensures var w := Run(window, start, events).value;
      && Count(Ops(w.adaptAnswers), op) == (if op in w.adaptsSubmitted then 1 else 0)
      && Count(Ops(w.retryAnswers), op) == (if op in w.retriesSubmitted then 1 else 0)
  {
    EveryRunKeepsInv(window, start, events);
    assert InOnePlace(Run(window, start, events).value, op);
  }

  /** A step that needs no client: a thread goes on, the queue runs, or a refresh completes. */
  predicate GoesOn(e: Event) {
    e.AdaptCompletes? || e.RetryEnds? || e.RetryLocks? || e.QueueRuns? || e.RefreshCompletes?
  }

  /** A step that cannot start a refresh */
  predicate StartsNothing(e: Event) {
    !e.ClientAdapts? && !e.RetryLocks? && (e.QueueRuns? ==> !e.reading.requiresRefresh)
  }

  /** ... and the protocol cannot get stuck before it is at rest. */
  lemma SomethingGoesOn(window: Option<RefreshWindow>, start: Option<Credential>, events: seq<Event>) returns (e: Event)
    requires Run(window, start, events).Some? && !AtRest(Run(window, start, events).value)
    ensures GoesOn(e) && Enabled(Run(window, start, events).value, e) && StartsNothing(e)
  {
    EveryRunKeepsInv(window, start, events);
    var w := Run(window, start, events).value;
    if w.adaptsInHand != map[] {
      var op :| op in w.adaptsInHand;
      e := AdaptCompletes(op);
    } else if w.retriesInHand != map[] {
      var op :| op in w.retriesInHand;
      e := RetryEnds(op);
    } else if w.inFlight != [] {
      e := RefreshCompletes(0, Failure(MissingCredential));
    } else {
      e := QueueRuns(Reading(false, w.clock, w.clock));
    }
  }

  // ---------- It comes to rest ----------

  /** How many steps a block can still lead to.  While a refresh is under way a drained operation may have
      to wait once more. */
  function BlockWork(b: Block, refreshing: bool): nat {
    match b
    case StartRefresh(_) => 3
    case DrainSuccess(adapts, retries) => 1 + (if refreshing then 5 * |adapts| else 3 * |adapts|) + |retries|
    case DrainFailure(_, adapts, retries) => 1 + |adapts| + |retries|
  }

  function QueueWork(queue: seq<Block>, refreshing: bool): nat {
    if queue == [] then 0 else BlockWork(queue[0], refreshing) + QueueWork(queue[1..], refreshing)
  }

  function Work(w: World): nat {
    QueueWork(w.shared.queue, w.shared.isRefreshing) + 2 * |w.inFlight| + 4 * |w.shared.adaptOperations|
    + |w.shared.requestsToRetry| + |w.adaptsInHand| + 3 * |w.retriesInHand|
  }

  lemma {:induction false} QueueWorkSnoc(queue: seq<Block>, b: Block, refreshing: bool)
    ensures QueueWork(queue + [b], refreshing) == QueueWork(queue, refreshing) + BlockWork(b, refreshing)
  {
    hide BlockWork;
    if queue == [] {
      assert queue + [b] == [b];
    } else {
      QueueWorkSnoc(queue[1..], b, refreshing);
      assert (queue + [b])[1..] == queue[1..] + [b];
    }
  }

  lemma QueueWorkHead(queue: seq<Block>, b: Block, refreshing: bool)
    requires queue != []
    ensures QueueWork(queue, refreshing) == BlockWork(queue[0], refreshing) + QueueWork(queue[1..], refreshing)
    ensures QueueWork([b] + queue[1..], refreshing) == BlockWork(b, refreshing) + QueueWork(queue[1..], refreshing)
  {
    assert ([b] + queue[1..])[1..] == queue[1..];
  }

  lemma {:induction false} QueueWorkCalms(queue: seq<Block>)
    ensures QueueWork(queue, false) <= QueueWork(queue, true)
  {
    if queue != [] {
      QueueWorkCalms(queue[1..]);
    }
  }

  lemma HeldSize<A>(held: map<nat, A>, op: nat, a: A)
    ensures |held[op := a]| <= |held| + 1
    ensures op in held ==> |held - {op}| == |held| - 1
  {
    assert held[op := a].Keys == held.Keys + {op};
    if op in held {
      assert (held - {op}).Keys == held.Keys - {op};
      assert |held.Keys - {op}| == |held.Keys| - 1;
    }
    assert |held[op := a]| == |held[op := a].Keys| && |held| == |held.Keys| && |held - {op}| == |(held - {op}).Keys|;
  }

  /** The critical section of adapt adds less work than a drained operation counts for. */
  lemma AdaptLocksWork(window: Option<RefreshWindow>, w: World, op: nat, r: Reading)
    requires OneRefresh(w)
    requires AdaptLocks(window, w, op, r).shared.refreshTimestamps == w.shared.refreshTimestamps
    ensures Work(AdaptLocks(window, w, op, r)) < Work(w) + (if w.shared.isRefreshing then 5 else 3)
  {
    hide QueueWork, IsExcessive;
    var s, answer := w.shared, AnswerTo(AfterAdapt(window, w.shared, op, r).1);
    if answer.Some? {
      HeldSize(w.adaptsInHand, op, answer.value);
    }
    QueueWorkSnoc(s.queue, DrainFailure(ExcessiveRefresh, s.adaptOperations + [op], s.requestsToRetry), false);
  }

  lemma DrainWork(window: Option<RefreshWindow>, w: World, r: Reading)
    requires OneRefresh(w) && w.shared.queue != [] && w.shared.queue[0].DrainSuccess? && w.shared.queue[0].adapts != []
    requires QueueStep(window, w, r).shared.refreshTimestamps == w.shared.refreshTimestamps
    ensures Work(QueueStep(window, w, r)) < Work(w)
  {
    hide QueueWork, AdaptLocks, AfterAdapt, AdaptsIn, RetriesIn, RefreshesIn;
    var queue := w.shared.queue;
    var adapts, retries := queue[0].adapts, queue[0].retries;
    var b := DrainSuccess(adapts[1..], retries);
    var w' := w.(shared := w.shared.(queue := [b] + queue[1..]));
    QueueWorkHead(queue, b, w.shared.isRefreshing);
    HeadTaken(w, adapts[0]);
    AdaptLocksWork(window, w', adapts[0], r);
  }

  /** Putting another block at the head, or none, changes the work by the difference. */
  lemma HeadWork(w: World, b: Block, w': World)
    requires w.shared.queue != [] && w'.shared.isRefreshing == w.shared.isRefreshing
    requires w'.shared.queue == [b] + w.shared.queue[1..]
    requires BlockWork(b, w.shared.isRefreshing) < BlockWork(w.shared.queue[0], w.shared.isRefreshing)
    requires w' == w.(shared := w'.shared, adaptAnswers := w'.adaptAnswers, retryAnswers := w'.retryAnswers)
    requires w'.shared == w.shared.(queue := w'.shared.queue)
    ensures Work(w') < Work(w)
  {
    hide QueueWork, BlockWork;
    QueueWorkHead(w.shared.queue, b, w.shared.isRefreshing);
  }

  lemma QueueStepWork(window: Option<RefreshWindow>, w: World, r: Reading)
    requires OneRefresh(w) && w.shared.queue != []
    requires QueueStep(window, w, r).shared.refreshTimestamps == w.shared.refreshTimestamps
    ensures Work(QueueStep(window, w, r)) < Work(w)
  {
    hide QueueWork, AdaptLocks, AfterAdapt, RefreshesIn, OneRefresh, Work;
    var b, w' := w.shared.queue[0], QueueStep(window, w, r);
    if b.DrainSuccess? && b.adapts != [] {
      DrainWork(window, w, r);
    } else if b.StartRefresh? || (b.adapts == [] && b.retries == []) {
      HeadGoneWork(window, w, r);
    } else if b.adapts != [] {
      HeadWork(w, DrainFailure(b.error, b.adapts[1..], b.retries), w');
    } else {
      HeadWork(w, if b.DrainSuccess? then DrainSuccess([], b.retries[1..]) else DrainFailure(b.error, [], b.retries[1..]), w');
    }
  }

  /** The authenticator is called, or an exhausted drain is taken off. */
  lemma HeadGoneWork(window: Option<RefreshWindow>, w: World, r: Reading)
    requires w.shared.queue != []
    requires w.shared.queue[0].StartRefresh? || (w.shared.queue[0].adapts == [] && w.shared.queue[0].retries == [])
    ensures Work(QueueStep(window, w, r)) < Work(w)
  {
    hide QueueWork, AdaptLocks, AfterAdapt;
    QueueWorkHead(w.shared.queue, w.shared.queue[0], w.shared.isRefreshing);
  }

  lemma RefreshCompletesWork(window: Option<RefreshWindow>, w: World, which: nat, result: RefreshResult)
    requires OneRefresh(w) && which < |w.inFlight|
    ensures Work(Step(window, w, RefreshCompletes(which, result))) < Work(w)
  {
    hide QueueWork, RefreshesIn;
    var s := w.shared;
    QueueWorkCalms(s.queue);
    match result {
      case Success(_) => QueueWorkSnoc(s.queue, DrainSuccess(s.adaptOperations, s.requestsToRetry), false);
      case Failure(e) => QueueWorkSnoc(s.queue, DrainFailure(e, s.adaptOperations, s.requestsToRetry), false);
    }
  }

  lemma RetryLocksWork(window: Option<RefreshWindow>, w: World, op: nat, r: Reading)
    requires OneRefresh(w) && Enabled(w, RetryLocks(op, r))
    requires Step(window, w, RetryLocks(op, r)).shared.refreshTimestamps == w.shared.refreshTimestamps
    ensures Work(Step(window, w, RetryLocks(op, r))) < Work(w)
  {
    hide QueueWork, IsExcessive, RefreshesIn;
    var s := w.shared;
    HeldSize(w.retriesInHand, op, None);
    QueueWorkSnoc(s.queue, DrainFailure(ExcessiveRefresh, s.adaptOperations, s.requestsToRetry + [op]), false);
  }

  /** Every step that goes on without starting a refresh leaves less to do. */
  lemma StepWork(window: Option<RefreshWindow>, w: World, e: Event)
    requires OneRefresh(w) && Enabled(w, e) && GoesOn(e)
    requires Step(window, w, e).shared.refreshTimestamps == w.shared.refreshTimestamps
    ensures Work(Step(window, w, e)) < Work(w)
  {
    hide QueueStep, AfterRetry, QueueWork;
    match e {
      case AdaptCompletes(op) => HeldSize(w.adaptsInHand, op, w.adaptsInHand[op]);
      case RetryEnds(op) => HeldSize(w.retriesInHand, op, None);
      case RetryLocks(op, r) => RetryLocksWork(window, w, op, r);
      case QueueRuns(r) => QueueStepWork(window, w, r);
      case RefreshCompletes(which, result) => RefreshCompletesWork(window, w, which, result);
    }
  }

  lemma {:induction false} StartsGrow(window: Option<RefreshWindow>, start: Option<Credential>, events: seq<Event>, k: nat)
    requires Run(window, start, events).Some? && k <= |events|
    ensures Run(window, start, events[..k]).Some?
    ensures |Run(window, start, events[..k]).value.shared.refreshTimestamps| <= |Run(window, start, events).value.shared.refreshTimestamps|
  {
    if k == |events| {
      assert events[..k] == events;
    } else {
      hide Step, Enabled, Run;
      var n := |events| - 1;
      RunLast(window, start, events);
      StartsGrow(window, start, events[..n], k);
      SliceLast(events, k);
      StepRecords(window, Run(window, start, events[..n]).value, events[n]);
    }
  }

  /** Main result: steps that go on without starting a refresh are bounded in number by the work there
      was; a run of them ends, and only at rest, where everybody has been answered. */
  lemma {:induction false} GoingOnEnds(window: Option<RefreshWindow>, start: Option<Credential>, events: seq<Event>, k: nat)
    requires Run(window, start, events).Some? && k <= |events| && forall i | k <= i < |events| :: GoesOn(events[i])
    requires Run(window, start, events[..k]).Some?
    requires |Run(window, start, events).value.shared.refreshTimestamps| == |Run(window, start, events[..k]).value.shared.refreshTimestamps|
    ensures |events| - k + Work(Run(window, start, events).value) <= Work(Run(window, start, events[..k]).value)
  {
    if k == |events| {
      assert events[..k] == events;
    } else {
      hide Step, Enabled, Run, Work, OneRefresh, InOnePlace;
      var n := |events| - 1;
      RunLast(window, start, events);
      StartsGrow(window, start, events[..n], k);
      SliceLast(events, k);
      var w := Run(window, start, events[..n]).value;
      StepRecords(window, w, events[n]);
      EveryRunKeepsInv(window, start, events[..n]);
      GoingOnEnds(window, start, events[..n], k);
      StepWork(window, w, events[n]);
    }
  }

  lemma StartsNothingNew(window: Option<RefreshWindow>, w: World, e: Event)
    requires Enabled(w, e) && StartsNothing(e)
    ensures Step(window, w, e).shared.refreshTimestamps == w.shared.refreshTimestamps
  {
  }

  lemma RunSnoc(window: Option<RefreshWindow>, start: Option<Credential>, events: seq<Event>, e: Event)
    requires Run(window, start, events).Some? && Enabled(Run(window, start, events).value, e)
    ensures Run(window, start, events + [e]) == Some(Step(window, Run(window, start, events).value, e))
  {
    assert (events + [e])[..|events|] == events;
  }

  /** From every run on, steps that need no client lead to rest. */
  lemma {:induction false} ComesToRest(window: Option<RefreshWindow>, start: Option<Credential>, events: seq<Event>)
    returns (more: seq<Event>)
    requires Run(window, start, events).Some?
    ensures forall i | 0 <= i < |more| :: GoesOn(more[i])
    ensures Run(window, start, events + more).Some? && AtRest(Run(window, start, events + more).value)
    ensures |more| <= Work(Run(window, start, events).value)
    decreases Work(Run(window, start, events).value)
  {
    hide Step, Enabled, Run, Work, OneRefresh, InOnePlace, AtRest, GoesOn, StartsNothing;
    var w := Run(window, start, events).value;
    if AtRest(w) {
      more := [];
      assert events + more == events;
    } else {
      var e := SomethingGoesOn(window, start, events);
      EveryRunKeepsInv(window, start, events);
      StartsNothingNew(window, w, e);
      StepWork(window, w, e);
      RunSnoc(window, start, events, e);
      var later := ComesToRest(window, start, events + [e]);
      more := [e] + later;
      Associate(events, [e], later);
    }
  }

  // ---------- How long a credential stays current ----------

  /** What the last event that sets the credential sets it to, if there is one */
  function LastSet(events: seq<Event>): Option<Option<Credential>> {
    if events == [] then None else
    match events[|events| - 1]
    case CredentialSet(c) => Some(c)
    case RefreshCompletes(_, Success(c)) => Some(Some(c))
    case _ => LastSet(events[..|events| - 1])
  }

  /** No event replaces c, or the last that sets a credential sets it to c again. */
  predicate StillCurrent(events: seq<Event>, c: Credential) {
    LastSet(events).None? || LastSet(events).value == Some(c)
  }

  function Completions(events: seq<Event>): nat {
    if events == [] then 0 else
    Completions(events[..|events| - 1]) + (if events[|events| - 1].RefreshCompletes? then 1 else 0)
  }

  lemma StepSets(window: Option<RefreshWindow>, w: World, e: Event)
    requires Enabled(w, e)
    ensures Step(window, w, e).shared.credential ==
      if LastSet([e]).Some? then LastSet([e]).value else w.shared.credential
  {
  }

  lemma LastSetSnoc(events: seq<Event>, e: Event)
    ensures LastSet(events + [e]) == if LastSet([e]).Some? then LastSet([e]) else LastSet(events)
    ensures Completions(events + [e]) == Completions(events) + (if e.RefreshCompletes? then 1 else 0)
  {
    assert (events + [e])[..|events|] == events;
  }

  lemma RunLast(window: Option<RefreshWindow>, start: Option<Credential>, events: seq<Event>)
    requires Run(window, start, events).Some? && events != []
    ensures var before, e := Run(window, start, events[..|events| - 1]), events[|events| - 1];
      before.Some? && Enabled(before.value, e) && Run(window, start, events) == Some(Step(window, before.value, e))
  {
    hide Step, Enabled;
  }

  lemma SliceLast<T>(s: seq<T>, k: nat)
    requires k < |s|
    ensures var n := |s| - 1; s[..n][..k] == s[..k] && s[k..] == s[..n][k..] + [s[n]]
  {
  }

  /** Every prefix of a run is a run. */
  lemma {:induction false} RunPrefix(window: Option<RefreshWindow>, start: Option<Credential>, events: seq<Event>, k: nat)
    requires Run(window, start, events).Some? && k <= |events|
    ensures Run(window, start, events[..k]).Some?
    ensures k < |events| ==> Enabled(Run(window, start, events[..k]).value, events[k])
    ensures k < |events| ==> Run(window, start, events[..k + 1]) == Some(Step(window, Run(window, start, events[..k]).value, events[k]))
  {
    if k == |events| {
      assert events[..k] == events;
    } else if k == |events| - 1 {
      assert events[..k + 1] == events;
    } else {
      var n := |events| - 1;
      RunPrefix(window, start, events[..n], k);
      assert events[..n][..k] == events[..k] && events[..n][..k + 1] == events[..k + 1];
    }
  }

  /** The credential after a run is the last one set since any earlier moment, or that moment's. */
  lemma {:induction false} CredentialIsLastSet(window: Option<RefreshWindow>, start: Option<Credential>, events: seq<Event>, k: nat)
    requires Run(window, start, events).Some? && k <= |events|
    ensures Run(window, start, events[..k]).Some?
    ensures Run(window, start, events).value.shared.credential ==
      if LastSet(events[k..]).Some? then LastSet(events[k..]).value
      else Run(window, start, events[..k]).value.shared.credential
  {
    if k == |events| {
      assert events[..k] == events;
    } else {
      hide Step, Enabled, LastSet, Run;
      var n := |events| - 1;
      RunLast(window, start, events);
      CredentialIsLastSet(window, start, events[..n], k);
      SliceLast(events, k);
      StepSets(window, Run(window, start, events[..n]).value, events[n]);
      LastSetSnoc(events[..n][k..], events[n]);
    }
  }

  lemma StepStarts(window: Option<RefreshWindow>, w: World, e: Event)
    requires OneRefresh(w) && Enabled(w, e)
    ensures var w' := Step(window, w, e);
      |w'.shared.refreshTimestamps| + (if w.shared.isRefreshing then 1 else 0)
      == |w.shared.refreshTimestamps| + (if w'.shared.isRefreshing then 1 else 0) + (if e.RefreshCompletes? then 1 else 0)
  {
    hide IsExcessive, QueueStep;
    if e.QueueRuns? {
      QueueStarts(window, w, e.reading);
    }
  }

  lemma QueueStarts(window: Option<RefreshWindow>, w: World, r: Reading)
    requires OneRefresh(w) && w.shared.queue != []
    ensures var w' := QueueStep(window, w, r);
      |w'.shared.refreshTimestamps| + (if w.shared.isRefreshing then 1 else 0)
      == |w.shared.refreshTimestamps| + (if w'.shared.isRefreshing then 1 else 0)
  {
    hide IsExcessive;
  }

  /** A refresh is under way exactly while more have been started than completed, counted from any
      earlier moment without one. */
  lemma {:induction false} RefreshingIsStarted(window: Option<RefreshWindow>, start: Option<Credential>, events: seq<Event>, k: nat)
    requires Run(window, start, events).Some? && k <= |events|
    ensures Run(window, start, events[..k]).Some?
    ensures var w, now := Run(window, start, events[..k]).value.shared, Run(window, start, events).value.shared;
      |now.refreshTimestamps| + (if w.isRefreshing then 1 else 0)
      == |w.refreshTimestamps| + (if now.isRefreshing then 1 else 0) + Completions(events[k..])
  {
    if k == |events| {
      assert events[..k] == events;
    } else {
      hide Step, Enabled, Completions, LastSet, InOnePlace, OneRefresh, Run;
      var n := |events| - 1;
      RunLast(window, start, events);
      RefreshingIsStarted(window, start, events[..n], k);
      SliceLast(events, k);
      EveryRunKeepsInv(window, start, events[..n]);
      StepStarts(window, Run(window, start, events[..n]).value, events[n]);
      LastSetSnoc(events[..n][k..], events[n]);
    }
  }

  /** At event k the lock was taken for op while c was the credential, not to be refreshed, and no
      refresh was under way. */
  ghost predicate DecidedAt(window: Option<RefreshWindow>, start: Option<Credential>, events: seq<Event>,
                            k: nat, op: nat, c: Credential)
  {
    && k < |events| && Run(window, start, events[..k]).Some?
    && var w := Run(window, start, events[..k]).value;
       && DecidedBy(w, events[k]) == Some(op) && !events[k].reading.requiresRefresh
       && w.shared.credential == Some(c) && !w.shared.isRefreshing
  }

  lemma DecidedEarlier(window: Option<RefreshWindow>, start: Option<Credential>, events: seq<Event>,
                       n: nat, k: nat, op: nat, c: Credential)
    requires n <= |events| && DecidedAt(window, start, events[..n], k, op, c)
    ensures DecidedAt(window, start, events, k, op, c)
  {
    assert events[..n][..k] == events[..k];
  }

  lemma StepDecides(window: Option<RefreshWindow>, w: World, e: Event, op: nat, c: Credential)
    requires Enabled(w, e)
    requires op in Step(window, w, e).adaptsInHand && Step(window, w, e).adaptsInHand[op] == Adapted(c)
    requires op in w.adaptsInHand ==> w.adaptsInHand[op] != Adapted(c)
    ensures DecidedBy(w, e) == Some(op) && !e.reading.requiresRefresh
    ensures w.shared.credential == Some(c) && !w.shared.isRefreshing
  {
  }

  /** A credential about to be applied was decided on under the lock. */
  lemma {:induction false} HeldWasDecided(window: Option<RefreshWindow>, start: Option<Credential>, events: seq<Event>,
                                          op: nat, c: Credential) returns (k: nat)
    requires Run(window, start, events).Some?
    requires var w := Run(window, start, events).value; op in w.adaptsInHand && w.adaptsInHand[op] == Adapted(c)
    ensures DecidedAt(window, start, events, k, op, c)
  {
    hide Step, Enabled, DecidedAt, DecidedBy, Run;
    RunIsNotEmpty(window, start, events, op);
    RunLast(window, start, events);
    var n := |events| - 1;
    var w := Run(window, start, events[..n]).value;
    if op in w.adaptsInHand && w.adaptsInHand[op] == Adapted(c) {
      k := HeldWasDecided(window, start, events[..n], op, c);
      DecidedEarlier(window, start, events, n, k, op, c);
    } else {
      k := n;
      StepDecides(window, w, events[n], op, c);
      DecidedNow(window, start, events, op, c);
    }
  }

  lemma RunIsNotEmpty(window: Option<RefreshWindow>, start: Option<Credential>, events: seq<Event>, op: nat)
    requires Run(window, start, events).Some? && op in Run(window, start, events).value.adaptsInHand
    ensures events != []
  {
  }

  lemma DecidedNow(window: Option<RefreshWindow>, start: Option<Credential>, events: seq<Event>, op: nat, c: Credential)
    requires events != [] && Run(window, start, events[..|events| - 1]).Some?
    requires var w, e := Run(window, start, events[..|events| - 1]).value, events[|events| - 1];
      && DecidedBy(w, e) == Some(op) && !e.reading.requiresRefresh
      && w.shared.credential == Some(c) && !w.shared.isRefreshing
    ensures DecidedAt(window, start, events, |events| - 1, op, c)
  {
  }

  /** Main result: a request about to be adapted was decided on under the lock, at a moment k when its
      credential was current and no refresh was under way.  When it is adapted the credential is
      still current if and only if no event since then has left another one, and a refresh is
      under way if and only if more have been started since than completed. */
  lemma AppliedCredentialIsCurrent(window: Option<RefreshWindow>, start: Option<Credential>, events: seq<Event>,
                                   op: nat, c: Credential) returns (k: nat)
    requires Run(window, start, events).Some? && Enabled(Run(window, start, events).value, AdaptCompletes(op))
    requires Run(window, start, events).value.adaptsInHand[op] == Adapted(c)
    ensures DecidedAt(window, start, events, k, op, c)
    ensures var w, decided, since := Run(window, start, events).value, Run(window, start, events[..k]).value, events[k..];
      && (w.shared.credential == Some(c) <==> StillCurrent(since, c))
      && (w.shared.isRefreshing <==>
            |w.shared.refreshTimestamps| > |decided.shared.refreshTimestamps| + Completions(since))
  {
    k := HeldWasDecided(window, start, events, op, c);
    CredentialIsLastSet(window, start, events, k);
    RefreshingIsStarted(window, start, events, k);
  }

  /** Every request adapted in a run was so with a credential decided on under the lock before. */
  lemma {:induction false} AdaptedWasDecided(window: Option<RefreshWindow>, start: Option<Credential>, events: seq<Event>, i: nat)
    returns (k: nat)
    requires Run(window, start, events).Some? && i < |Run(window, start, events).value.adaptAnswers|
    requires Run(window, start, events).value.adaptAnswers[i].1.Adapted?
    ensures var (op, answer) := Run(window, start, events).value.adaptAnswers[i];
      DecidedAt(window, start, events, k, op, answer.credential)
  {
    hide Step, Enabled, DecidedAt, DecidedBy;
    var (op, answer) := Run(window, start, events).value.adaptAnswers[i];
    assert events != [] by {
      assert |Start(start).adaptAnswers| == 0;
    }
    var n := |events| - 1;
    var w := Run(window, start, events[..n]).value;
    StepAnswers(window, w, events[n], i);
    if i < |w.adaptAnswers| {
      k := AdaptedWasDecided(window, start, events[..n], i);
    } else {
      k := HeldWasDecided(window, start, events[..n], op, answer.credential);
    }
    DecidedEarlier(window, start, events, n, k, op, answer.credential);
  }

  /** A step keeps the answers given; a request is adapted only by giving the answer held for it. */
  lemma StepAnswers(window: Option<RefreshWindow>, w: World, e: Event, i: nat)
    requires Enabled(w, e) && i < |Step(window, w, e).adaptAnswers|
    ensures var a := Step(window, w, e).adaptAnswers[i];
      && (i < |w.adaptAnswers| ==> a == w.adaptAnswers[i])
      && (i >= |w.adaptAnswers| && a.1.Adapted? ==>
            e == AdaptCompletes(a.0) && a.0 in w.adaptsInHand && w.adaptsInHand[a.0] == a.1)
  {
  }

  /** What a retry has read stays in its hand unchanged. */
  lemma {:induction false} RetryHolds(window: Option<RefreshWindow>, start: Option<Credential>, events: seq<Event>, k: nat, op: nat)
    requires Run(window, start, events).Some? && k < |events| && events[k] == RetryReads(op)
    ensures Run(window, start, events[..k]).Some?
    ensures var w := Run(window, start, events).value;
      && op in w.retriesSubmitted
      && (op in w.retriesInHand ==>
            w.retriesInHand[op] == Run(window, start, events[..k]).value.shared.credential)
  {
    var n := |events| - 1;
    var w := Run(window, start, events[..n]).value;
    if k < n {
      RetryHolds(window, start, events[..n], k, op);
      assert events[..n][..k] == events[..k];
      StepKeepsHeld(window, w, events[n], op);
      hide Step;
    }
  }

  lemma StepKeepsHeld(window: Option<RefreshWindow>, w: World, e: Event, op: nat)
    requires Enabled(w, e) && op in w.retriesSubmitted
    ensures var w' := Step(window, w, e);
      && op in w'.retriesSubmitted
      && (op in w'.retriesInHand ==> op in w.retriesInHand && w'.retriesInHand[op] == w.retriesInHand[op])
  {
  }

  /** Main result: a retry that takes the lock starts a refresh of a credential that is no longer the
      current one if and only if none is under way, the window allows one, and an event since the
      retry read the credential has left another one. */
  lemma RetryRefreshesReplacedCredential(window: Option<RefreshWindow>, start: Option<Credential>, events: seq<Event>,
                                         k: nat, op: nat, r: Reading)
    requires Run(window, start, events).Some? && k < |events| && events[k] == RetryReads(op)
    requires Enabled(Run(window, start, events).value, RetryLocks(op, r))
    ensures var w := Run(window, start, events).value;
      var w', c := Step(window, w, RetryLocks(op, r)), w.retriesInHand[op].value;
      (w'.shared.queue == w.shared.queue + [StartRefresh(c)] && w'.shared.credential != Some(c)) <==>
        && !w.shared.isRefreshing
        && !IsExcessive(window, w.shared.refreshTimestamps, r.checked)
        && !StillCurrent(events[k + 1..], c)
  {
    hide Step, Enabled, LastSet;
    var w := Run(window, start, events).value;
    RetryHolds(window, start, events, k, op);
    RunPrefix(window, start, events, k);
    ReadingSetsNothing(window, Run(window, start, events[..k]).value, op);
    CredentialIsLastSet(window, start, events, k + 1);
    RetryStartsRefresh(window, w, op, r);
  }

  lemma ReadingSetsNothing(window: Option<RefreshWindow>, w: World, op: nat)
    requires Enabled(w, RetryReads(op))
    ensures Step(window, w, RetryReads(op)).shared == w.shared
  {
  }

  lemma RetryStartsRefresh(window: Option<RefreshWindow>, w: World, op: nat, r: Reading)
    requires Enabled(w, RetryLocks(op, r))
    ensures op in w.retriesInHand && w.retriesInHand[op].Some?
    ensures var w', c := Step(window, w, RetryLocks(op, r)), w.retriesInHand[op].value;
      && (w'.shared.queue == w.shared.queue + [StartRefresh(c)] <==>
            !w.shared.isRefreshing && !IsExcessive(window, w.shared.refreshTimestamps, r.checked))
      && w'.shared.credential == w.shared.credential
  {
    var s, c := w.shared, w.retriesInHand[op].value;
    var failed := DrainFailure(ExcessiveRefresh, s.adaptOperations, s.requestsToRetry + [op]);
    assert (s.queue + [failed])[|s.queue|] == failed && (s.queue + [StartRefresh(c)])[|s.queue|] == StartRefresh(c);
  }

  // ---------- Two runs ----------

  predicate IsStep(w: World, e: Event, w': World) {
    Enabled(w, e) && Step(None, w, e) == w'
  }

  lemma {:induction false} RunExtended(start: Option<Credential>, events: seq<Event>, worlds: seq<World>)
    requires |worlds| == |events| + 1 && worlds[0] == Start(start)
    requires forall i | 0 <= i < |events| :: IsStep(worlds[i], events[i], worlds[i + 1])
    ensures Run(None, start, events) == Some(worlds[|events|])
  {
    hide Step, Enabled;
    if events != [] {
      var n := |events| - 1;
      RunExtended(start, events[..n], worlds[..n + 1]);
    }
  }

  /** Two retries read the credential; the first one's refresh replaces it before the second locks. */
  function RetryRun(): (seq<Event>, seq<World>) {
    var r, c0, c1 := Reading(false, 0.0, 0.0), Credential(0), Credential(1);
    var w0 := Start(Some(c0));
    var w1 := w0.(retriesInHand := map[0 := Some(c0)], retriesSubmitted := {0});
    var w2 := w1.(retriesInHand := map[0 := Some(c0), 1 := Some(c0)], retriesSubmitted := {0, 1});
    var w3 := w2.(retriesInHand := map[1 := Some(c0)], shared := Shared(Some(c0), true, [0.0], [], [0], [StartRefresh(c0)]));
    var w4 := w3.(shared := w3.shared.(queue := []), inFlight := [c0], refreshCalls := [0.0]);
    var w5 := w4.(shared := Shared(Some(c1), false, [0.0], [], [], [DrainSuccess([], [0])]), inFlight := []);
    var w6 := w5.(retriesInHand := map[],
                  shared := Shared(Some(c1), true, [0.0, 0.0], [], [1], [DrainSuccess([], [0]), StartRefresh(c0)]));
    ([RetryReads(0), RetryReads(1), RetryLocks(0, r), QueueRuns(r), RefreshCompletes(0, Success(c1)), RetryLocks(1, r)],
     [w0, w1, w2, w3, w4, w5, w6])
  }

  lemma RetryRunStep(i: nat)
    requires i < 6
    ensures IsStep(RetryRun().1[i], RetryRun().0[i], RetryRun().1[i + 1])
  {
    hide AdaptLocks, QueueStep;
    if i == 3 {
      RetryRunQueueStep();
    }
  }

  lemma RetryRunQueueStep()
    ensures IsStep(RetryRun().1[3], RetryRun().0[3], RetryRun().1[4])
  {
    hide AdaptLocks;
  }

  /** That run starts a refresh of the replaced credential. */
  lemma RetryMayRefreshReplacedCredential()
    ensures var (events, worlds) := RetryRun();
      && |events| == 6 && |worlds| == 7 && Run(None, Some(Credential(0)), events) == Some(worlds[6])
      && worlds[6].shared.credential == Some(Credential(1))
      && worlds[6].shared.queue == [DrainSuccess([], [0]), StartRefresh(Credential(0))]
  {
    hide IsStep, Run;
    var (events, worlds) := RetryRun();
    forall i | 0 <= i < |events| ensures IsStep(worlds[i], events[i], worlds[i + 1]) {
      RetryRunStep(i);
    }
    RunExtended(Some(Credential(0)), events, worlds);
  }

  /** A request is decided on; before it is adapted the credential is replaced and a refresh begins. */
  function AdaptRun(): (seq<Event>, seq<World>) {
    var r, refresh, c0, c1 := Reading(false, 0.0, 0.0), Reading(true, 0.0, 0.0), Credential(0), Credential(1);
    var w0 := Start(Some(c0));
    var w1 := w0.(adaptsSubmitted := {0}, adaptsInHand := map[0 := Adapted(c0)]);
    var w2 := w1.(shared := w1.shared.(credential := Some(c1)));
    var w3 := w2.(adaptsSubmitted := {0, 1}, shared := Shared(Some(c1), true, [0.0], [1], [], [StartRefresh(c1)]));
    var w4 := w3.(shared := w3.shared.(queue := []), inFlight := [c1], refreshCalls := [0.0]);
    var w5 := w4.(adaptsInHand := map[], adaptAnswers := [(0, Adapted(c0))]);
    ([ClientAdapts(0, r), CredentialSet(Some(c1)), ClientAdapts(1, refresh), QueueRuns(r), AdaptCompletes(0)],
     [w0, w1, w2, w3, w4, w5])
  }

  lemma AdaptRunStep(i: nat)
    requires i < 5
    ensures IsStep(AdaptRun().1[i], AdaptRun().0[i], AdaptRun().1[i + 1])
  {
    hide QueueStep, AfterRetry;
    if i == 3 {
      AdaptRunQueueStep();
    }
  }

  lemma AdaptRunQueueStep()
    ensures IsStep(AdaptRun().1[3], AdaptRun().0[3], AdaptRun().1[4])
  {
    hide AdaptLocks, AfterRetry;
  }

  /** In that run a request is adapted during a refresh, with a credential that is not current. */
  lemma RequestMayBeAdaptedWithReplacedCredential()
    ensures var (events, worlds) := AdaptRun();
      && |events| == 5 && |worlds| == 6 && Run(None, Some(Credential(0)), events) == Some(worlds[5])
      && events[4] == AdaptCompletes(0) && worlds[5].adaptAnswers == [(0, Adapted(Credential(0)))]
      && worlds[4].shared.credential == Some(Credential(1)) && worlds[4].shared.isRefreshing
  {
    hide IsStep, Run;
    var (events, worlds) := AdaptRun();
    forall i | 0 <= i < |events| ensures IsStep(worlds[i], events[i], worlds[i + 1]) {
      AdaptRunStep(i);
    }
    RunExtended(Some(Credential(0)), events, worlds);
  }

  // ---------- The rate limit ----------

  function CountWithin(timestamps: seq<real>, from: real, to: real): nat {
    if timestamps == [] then 0 else
    CountWithin(timestamps[..|timestamps| - 1], from, to)
    + (if from <= timestamps[|timestamps| - 1] <= to then 1 else 0)
  }

  /** The recorded times never decrease and none lies in the future. */
  ghost predicate InOrder(timestamps: seq<real>, clock: real) {
    && (forall i, j | 0 <= i < j < |timestamps| :: timestamps[i] <= timestamps[j])
    && (forall i | 0 <= i < |timestamps| :: timestamps[i] <= clock)
  }

  ghost predicate LimitHoldsFrom(window: RefreshWindow, timestamps: seq<real>, from: real) {
    CountWithin(timestamps, from, from + window.interval) <= Limit(window)
  }

  /** With a negative maximum no refresh is ever started. */
  function Limit(window: RefreshWindow): nat {
    if window.maximumAttempts < 0 then 0 else window.maximumAttempts
  }

  ghost predicate WithinLimit(window: RefreshWindow, timestamps: seq<real>) {
    forall from: real :: LimitHoldsFrom(window, timestamps, from)
  }

  lemma {:induction false} WithinIsSince(timestamps: seq<real>, from: real, to: real, since: real)
    requires since <= from
    ensures CountWithin(timestamps, from, to) <= CountSince(timestamps, since)
  {
    if timestamps != [] {
      WithinIsSince(timestamps[..|timestamps| - 1], from, to, since);
    }
  }

  /** Recording one more start keeps every window of the interval's length within the limit,
      although the time recorded is later than the time checked. */
  lemma OneMoreIsWithinLimit(window: RefreshWindow, timestamps: seq<real>, checked: real, recorded: real)
    requires WithinLimit(window, timestamps) && checked <= recorded
    requires !IsExcessive(Some(window), timestamps, checked)
    ensures WithinLimit(window, timestamps + [recorded])
  {
    forall from: real
      ensures LimitHoldsFrom(window, timestamps + [recorded], from)
    {
      assert (timestamps + [recorded])[..|timestamps|] == timestamps;
      assert LimitHoldsFrom(window, timestamps, from);
      if from <= recorded <= from + window.interval {
        WithinIsSince(timestamps, from, from + window.interval, checked - window.interval);
      }
    }
  }

  lemma StepKeepsLimit(window: RefreshWindow, w: World, e: Event)
    requires Enabled(w, e)
    requires InOrder(w.shared.refreshTimestamps, w.clock) && WithinLimit(window, w.shared.refreshTimestamps)
    ensures var w' := Step(Some(window), w, e);
      && InOrder(w'.shared.refreshTimestamps, w'.clock) && WithinLimit(window, w'.shared.refreshTimestamps)
  {
    hide WithinLimit;
    StepRecords(Some(window), w, e);
    var timestamps := w.shared.refreshTimestamps;
    var w' := Step(Some(window), w, e);
    hide Step, Enabled;
    if w'.shared.refreshTimestamps != timestamps {
      OneMoreIsWithinLimit(window, timestamps, e.reading.checked, e.reading.recorded);
    }
  }

  /** A step records at most one start, which the window allowed, and moves the clock forward. */
  lemma StepRecords(window: Option<RefreshWindow>, w: World, e: Event)
    requires Enabled(w, e)
    ensures var w' := Step(window, w, e);
      && w.clock <= w'.clock
      && (w'.shared.refreshTimestamps == w.shared.refreshTimestamps
          || (&& (e.ClientAdapts? || e.RetryLocks? || e.QueueRuns?)
              && w.clock <= e.reading.checked <= e.reading.recorded == w'.clock
              && !IsExcessive(window, w.shared.refreshTimestamps, e.reading.checked)
              && w'.shared.refreshTimestamps == w.shared.refreshTimestamps + [e.reading.recorded]))
  {
    hide IsExcessive;
  }

  /** Main result: in every run, every closed time interval of the window's length holds at
      most maximumAttempts started refreshes. */
  lemma {:induction false} RefreshRateIsLimited(window: RefreshWindow, start: Option<Credential>, events: seq<Event>, from: real)
    requires Run(Some(window), start, events).Some?
    ensures var w := Run(Some(window), start, events).value;
      CountWithin(w.shared.refreshTimestamps, from, from + window.interval) <= Limit(window)
  {
    RunKeepsLimit(window, start, events);
    assert LimitHoldsFrom(window, Run(Some(window), start, events).value.shared.refreshTimestamps, from);
  }

  lemma {:induction false} RunKeepsLimit(window: RefreshWindow, start: Option<Credential>, events: seq<Event>)
    requires Run(Some(window), start, events).Some?
    ensures var w := Run(Some(window), start, events).value;
      InOrder(w.shared.refreshTimestamps, w.clock) && WithinLimit(window, w.shared.refreshTimestamps)
  {
    if events != [] {
      RunKeepsLimit(window, start, events[..|events| - 1]);
      StepKeepsLimit(window, Run(Some(window), start, events[..|events| - 1]).value, events[|events| - 1]);
    }
  }

  // ---------- When the authenticator is called ----------

  /** Refresh i is called not before it is recorded and not after refresh i + 1 is; all but one that
      still waits in the queue have been called. */
  ghost predicate CallsFollow(w: World) {
    var starts, calls := w.shared.refreshTimestamps, w.refreshCalls;
    && |calls| + (if w.shared.isRefreshing && w.inFlight == [] then 1 else 0) == |starts|
    && Alternate(starts, calls)
    && (forall i | 0 <= i < |starts| :: starts[i] <= w.clock)
    && (forall i | 0 <= i < |calls| :: calls[i] <= w.clock)
  }

  ghost predicate Alternate(starts: seq<real>, calls: seq<real>) {
    && |calls| <= |starts|
    && (forall i | 0 <= i < |calls| :: starts[i] <= calls[i])
    && (forall i | 0 <= i < |calls| && i + 1 < |starts| :: calls[i] <= starts[i + 1])
    && (forall i, j | 0 <= i < j < |starts| :: starts[i] <= starts[j])
  }

  /** A step calls the authenticator for the one refresh that waits, or not at all. */
  lemma StepCalls(window: Option<RefreshWindow>, w: World, e: Event)
    requires OneRefresh(w) && Enabled(w, e)
    ensures var w' := Step(window, w, e);
      || (&& w'.refreshCalls == w.refreshCalls
          && (w'.shared.refreshTimestamps == w.shared.refreshTimestamps ==>
                (w'.shared.isRefreshing && w'.inFlight == [] <==> w.shared.isRefreshing && w.inFlight == []))
          && (w'.shared.refreshTimestamps != w.shared.refreshTimestamps ==>
                !w.shared.isRefreshing && w'.shared.isRefreshing && w'.inFlight == []))
      || (&& e.QueueRuns? && w'.refreshCalls == w.refreshCalls + [e.reading.recorded]
          && w.clock <= e.reading.recorded == w'.clock
          && w'.shared.refreshTimestamps == w.shared.refreshTimestamps
          && w.shared.isRefreshing && w.inFlight == [] && w'.inFlight != [])
  {
    hide IsExcessive, QueueStep;
    if e.QueueRuns? {
      QueueCalls(window, w, e.reading);
    }
  }

  lemma QueueCalls(window: Option<RefreshWindow>, w: World, r: Reading)
    requires OneRefresh(w) && w.shared.queue != [] && ClockAdvances(w, r)
    ensures var w' := QueueStep(window, w, r);
      if w.shared.queue[0].StartRefresh? then
        && w'.refreshCalls == w.refreshCalls + [r.recorded] && w'.clock == r.recorded
        && w'.shared.refreshTimestamps == w.shared.refreshTimestamps
        && w.shared.isRefreshing && w.inFlight == [] && w'.inFlight != []
      else
        && w'.refreshCalls == w.refreshCalls && w'.inFlight == w.inFlight
        && (w'.shared.refreshTimestamps == w.shared.refreshTimestamps ==>
              w'.shared.isRefreshing == w.shared.isRefreshing)
        && (w'.shared.refreshTimestamps != w.shared.refreshTimestamps ==>
              !w.shared.isRefreshing && w'.shared.isRefreshing && w.inFlight == [])
  {
    hide IsExcessive;
  }

  lemma StepKeepsCalls(window: Option<RefreshWindow>, w: World, e: Event)
    requires OneRefresh(w) && Enabled(w, e) && CallsFollow(w)
    ensures CallsFollow(Step(window, w, e))
  {
    StepCalls(window, w, e);
    StepRecords(window, w, e);
    hide Step, Enabled, OneRefresh, IsExcessive;
  }

  lemma {:induction false} RunKeepsCalls(window: Option<RefreshWindow>, start: Option<Credential>, events: seq<Event>)
    requires Run(window, start, events).Some?
    ensures CallsFollow(Run(window, start, events).value)
  {
    if events != [] {
      hide Step, Enabled, CallsFollow, InOnePlace, OneRefresh, Run;
      var n := |events| - 1;
      RunLast(window, start, events);
      RunKeepsCalls(window, start, events[..n]);
      EveryRunKeepsInv(window, start, events[..n]);
      StepKeepsCalls(window, Run(window, start, events[..n]).value, events[n]);
    }
  }

  /** At most one call in an interval belongs to a start before it. */
  lemma {:induction false} CallsWithin(starts: seq<real>, calls: seq<real>, from: real, to: real)
    requires Alternate(starts, calls)
    ensures CountWithin(calls, from, to) <= CountWithin(starts[..|calls|], from, to) + 1
    ensures CountWithin(calls, from, to) > 0 ==> exists i :: 0 <= i < |calls| && from <= calls[i]
  {
    if calls != [] {
      var n := |calls| - 1;
      CallsWithin(starts, calls[..n], from, to);
      assert starts[..n + 1][..n] == starts[..n];
      if from <= calls[n] <= to && CountWithin(calls[..n], from, to) > 0 {
        var i :| 0 <= i < n && from <= calls[..n][i];
        assert from <= calls[i] <= starts[i + 1] <= starts[n] <= calls[n] <= to;
      }
    }
  }

  lemma {:induction false} FewerWithin(s: seq<real>, n: nat, from: real, to: real)
    requires n <= |s|
    ensures CountWithin(s[..n], from, to) <= CountWithin(s, from, to)
  {
    if n == |s| {
      assert s[..n] == s;
    } else {
      FewerWithin(s[..|s| - 1], n, from, to);
      assert s[..|s| - 1][..n] == s[..n];
    }
  }

  lemma FollowingAlternates(w: World)
    requires CallsFollow(w)
    ensures Alternate(w.shared.refreshTimestamps, w.refreshCalls) && |w.refreshCalls| <= |w.shared.refreshTimestamps|
  {
  }

  /** Main result: although the authenticator is called later than a refresh is recorded, every closed
      interval of the window's length holds at most one call more than the window allows starts. */
  lemma CallRateIsLimited(window: RefreshWindow, start: Option<Credential>, events: seq<Event>, from: real)
    requires Run(Some(window), start, events).Some?
    ensures CountWithin(Run(Some(window), start, events).value.refreshCalls, from, from + window.interval) <= Limit(window) + 1
  {
    hide Run, CountWithin, CallsFollow, Alternate;
    var w := Run(Some(window), start, events).value;
    RunKeepsCalls(Some(window), start, events);
    FollowingAlternates(w);
    CallsWithin(w.shared.refreshTimestamps, w.refreshCalls, from, from + window.interval);
    FewerWithin(w.shared.refreshTimestamps, |w.refreshCalls|, from, from + window.interval);
    RefreshRateIsLimited(window, start, events, from);
  }
}
