/**
 Single-flight authentication: any number of requests share an atomic generation and a
 mutex-guarded pair of generation and last result, and may be dropped whenever they await.
 The protocol is a transition system; `attempts` and the unbounded counts `seen`, `used`
 and `publishedCount` only record history and are never consulted by a step.
 */
module SingleFlight {
  import opened Bytes
  import opened Challenge

  type TaskId = nat

  datatype AuthError =
    | Unreachable
    | BadStatus(code: nat)
    | BadChallenge(reason: ChallengeError)
    | BodyNotWritten
    | RejectedCredentials

  /** Result of an authentication attempt. */
  datatype Outcome = Authenticated | Failed(error: AuthError)

  /** Answer to the GET of an attempt; `writes` says whether the body of the POST can then be serialised. */
  datatype ProbeReply = NoProbe | ProbeStatus(code: nat, headers: Headers, writes: bool)

  /** Answer to the POST. */
  datatype PostReply = NoPost | PostStatus(code: nat)

  datatype Response = NoResponse | Unauthorized | Other

  datatype Reply =
    | TransportError
    | Passed
    | CredentialsRequired
    | AuthenticationFailed(error: AuthError)
    | StillUnauthorized

  /** Where a request stands. The mutex is held from `Comparing` to `Releasing`. */
  datatype Pc =
    | Sending                        // awaits the first response
    | Locking                        // awaits the mutex
    | Comparing
    | Probing                        // awaits the answer to the authentication GET
    | Posting                        // awaits the answer to the authentication POST
    | Incrementing(outcome: Outcome)
    | Recording(outcome: Outcome)
    | Publishing(outcome: Outcome)
    | Releasing(outcome: Outcome)
    | Retrying                       // awaits the second response
    | Finished(reply: Reply)
    | Dropped
    | Panicked

  /** `used` is the number of the attempt whose outcome was returned, counted from one; 0 for none. */
  datatype Task = Task(observed: U64, seen: nat, pc: Pc, used: nat)

  datatype Attempt = Attempt(leader: TaskId, seen: nat, outcome: Outcome)

  datatype System = System(
    credentials: bool,
    generation: U64,
    lastResult: Option<Outcome>,
    published: U64,
    holder: Option<TaskId>,
    tasks: map<TaskId, Task>,
    attempts: seq<Attempt>,
    publishedCount: nat
  )

  datatype Event =
    | Load(task: TaskId, seen: nat)
    | Receive(task: TaskId, response: Response)
    | Acquire(task: TaskId)
    | Compare(task: TaskId)
    | Probed(task: TaskId, probe: ProbeReply)
    | Posted(task: TaskId, post: PostReply)
    | Increment(task: TaskId)
    | Record(task: TaskId)
    | Publish(task: TaskId)
    | Release(task: TaskId)
    | Drop(task: TaskId)

  predicate Awaits(pc: Pc) {
    pc.Sending? || pc.Locking? || pc.Probing? || pc.Posting? || pc.Retrying?
  }

  predicate HoldsMutex(pc: Pc) {
    pc.Comparing? || pc.Probing? || pc.Posting? || pc.Incrementing? || pc.Recording? || pc.Publishing?
    || pc.Releasing?
  }

  function Initial(credentials: bool): System {
    System(credentials, 0, None, 0, None, map[], [], 0)
  }

  // ---------- steps ----------

  predicate At(s: System, t: TaskId, pc: Pc) {
    t in s.tasks && s.tasks[t].pc == pc
  }

  predicate Enabled(s: System, e: Event) {
    match e
    case Load(t, seen) => t !in s.tasks && seen <= s.publishedCount
    case Receive(t, _) => At(s, t, Sending) || At(s, t, Retrying)
    case Acquire(t) => At(s, t, Locking) && s.holder.None?
    case Compare(t) => At(s, t, Comparing)
    case Probed(t, _) => At(s, t, Probing)
    case Posted(t, _) => At(s, t, Posting)
    case Increment(t) => t in s.tasks && s.tasks[t].pc.Incrementing?
    case Record(t) => t in s.tasks && s.tasks[t].pc.Recording?
    case Publish(t) => t in s.tasks && s.tasks[t].pc.Publishing?
    case Release(t) => t in s.tasks && s.tasks[t].pc.Releasing?
    case Drop(t) => t in s.tasks && Awaits(s.tasks[t].pc)
  }

  function Move(s: System, t: TaskId, pc: Pc): System
    requires t in s.tasks
  {
    s.(tasks := s.tasks[t := s.tasks[t].(pc := pc)])
  }

  function Wrapped(n: nat): U64 {
    n % TWO_POW_64
  }

  /**
   The atomic load may see any generation published so far: the current one or, as acquire
   ordering permits, an older one.
   */
  function Apply(s: System, e: Event): System
    requires Enabled(s, e)
  {
    var t := e.task;
    match e
    case Load(_, seen) => s.(tasks := s.tasks[t := Task(Wrapped(seen), seen, Sending, 0)])
    case Receive(_, response) => Move(s, t, AfterResponse(s, s.tasks[t].pc.Retrying?, response))
    case Acquire(_) => Move(s, t, Comparing).(holder := Some(t))
    case Compare(_) => ApplyCompare(s, t)
    case Probed(_, probe) => Move(s, t, AfterProbe(probe))
    case Posted(_, post) => Move(s, t, Incrementing(PostOutcome(post)))
    case Increment(_) =>
      var outcome := s.tasks[t].pc.outcome;
      var n := |s.attempts| + 1;
      s.(generation := Wrapped(s.generation + 1),
         attempts := s.attempts + [Attempt(t, s.tasks[t].seen, outcome)],
         tasks := s.tasks[t := s.tasks[t].(pc := Recording(outcome), used := n)])
    case Record(_) =>
      var outcome := s.tasks[t].pc.outcome;
      Move(s, t, Publishing(outcome)).(lastResult := Some(outcome))
    case Publish(_) =>
      Move(s, t, Releasing(s.tasks[t].pc.outcome)).(published := s.generation, publishedCount := |s.attempts|)
    case Release(_) => Move(s, t, AfterAuthentication(s.tasks[t].pc.outcome)).(holder := None)
    case Drop(_) => Move(s, t, Dropped).(holder := if s.holder == Some(t) then None else s.holder)
  }

  function AfterResponse(s: System, retried: bool, response: Response): Pc {
    match response
    case NoResponse => Finished(TransportError)
    case Other => Finished(Passed)
    case Unauthorized =>
      if retried then Finished(StillUnauthorized)
      else if !s.credentials then Finished(CredentialsRequired)
      else Locking
  }

  function AfterProbe(probe: ProbeReply): Pc {
    match probe
    case NoProbe => Incrementing(Failed(Unreachable))
    case ProbeStatus(code, headers, writes) =>
      if code == 200 then Incrementing(Authenticated)
      else if code != 401 then Incrementing(Failed(BadStatus(code)))
      else
        match ParseChallenge(headers)
        case Err(reason) => Incrementing(Failed(BadChallenge(reason)))
        case Ok(_) => if writes then Posting else Incrementing(Failed(BodyNotWritten))
  }

  function PostOutcome(post: PostReply): Outcome {
    match post
    case NoPost => Failed(Unreachable)
    case PostStatus(code) =>
      if code == 401 then Failed(RejectedCredentials)
      else if 200 <= code < 300 then Authenticated
      else Failed(BadStatus(code))
  }

  function AfterAuthentication(outcome: Outcome): Pc {
    match outcome
    case Authenticated => Retrying
    case Failed(error) => Finished(AuthenticationFailed(error))
  }

  /** A follower takes the outcome of the latest attempt. */
  function Served(s: System, t: TaskId, pc: Pc): System
    requires t in s.tasks
  {
    s.(tasks := s.tasks[t := s.tasks[t].(pc := pc, used := |s.attempts|)])
  }

  /** A follower clones the last result; the `expect` on it is the step to `Panicked`. */
  function ApplyCompare(s: System, t: TaskId): System
    requires t in s.tasks
  {
    if s.generation == s.tasks[t].observed then Move(s, t, Probing)
    else
      match s.lastResult
      case None => Move(s, t, Panicked)
      case Some(outcome) => Served(s, t, Releasing(outcome))
  }

  function Run(s: System, events: seq<Event>): Option<System>
    decreases |events|
  {
    if events == [] then Some(s)
    else if Enabled(s, events[0]) then Run(Apply(s, events[0]), events[1..])
    else None
  }

  ghost predicate Reachable(s: System) {
    exists credentials, events :: Run(Initial(credentials), events) == Some(s)
  }

  // ---------- the invariant ----------

  predicate LastRecorded(s: System) {
    s.lastResult == if s.attempts == [] then None else Some(s.attempts[|s.attempts| - 1].outcome)
  }

  /** The region is quiet: every completed attempt is recorded and published. */
  predicate Settled(s: System) {
    s.publishedCount == |s.attempts| && LastRecorded(s)
  }

  /** One attempt is completed but not yet published. */
  predicate Lagging(s: System, outcome: Outcome) {
    s.attempts != [] && s.publishedCount == |s.attempts| - 1 && s.attempts[|s.attempts| - 1].outcome == outcome
  }

  predicate Shared(s: System) {
    s.generation == Wrapped(|s.attempts|)
    && s.published == Wrapped(s.publishedCount)
    && s.publishedCount <= |s.attempts| <= s.publishedCount + 1
    && match s.holder
       case None => Settled(s)
       case Some(t) =>
         t in s.tasks && HoldsMutex(s.tasks[t].pc)
         && match s.tasks[t].pc
            case Recording(outcome) => Lagging(s, outcome)
            case Publishing(outcome) => Lagging(s, outcome) && LastRecorded(s)
            case _ => Settled(s)
  }

  /** The attempt number is a multiple of 2^64 away from the observation that led it. */
  predicate LedFrom(number: nat, seen: nat) {
    seen <= number && (number - seen) % TWO_POW_64 == 0
  }

  predicate UsesLater(s: System, task: Task, outcome: Outcome) {
    task.seen < task.used <= |s.attempts| && s.attempts[task.used - 1].outcome == outcome
  }

  predicate TaskOk(s: System, t: TaskId, task: Task) {
    task.observed == Wrapped(task.seen)
    && task.seen <= s.publishedCount
    && (HoldsMutex(task.pc) ==> s.holder == Some(t))
    && ((HoldsMutex(task.pc) || task.pc.Locking? || task.used > 0) ==> s.credentials)
    && (task.used > 0 ==> task.seen < task.used <= |s.attempts|)
    && match task.pc
       case Panicked => false
       case Probing | Posting | Incrementing(_) => LedFrom(|s.attempts|, task.seen) && task.used == 0
       case Recording(outcome) => UsesLater(s, task, outcome)
       case Publishing(outcome) => UsesLater(s, task, outcome)
       case Releasing(outcome) => UsesLater(s, task, outcome)
       case Retrying => UsesLater(s, task, Authenticated)
       case Finished(AuthenticationFailed(error)) => UsesLater(s, task, Failed(error))
       case Finished(StillUnauthorized) => UsesLater(s, task, Authenticated)
       case Dropped => true
       case Finished(CredentialsRequired) => task.used == 0
       case Finished(_) => task.used > 0 ==> UsesLater(s, task, Authenticated)
       case _ => task.used == 0
  }

  ghost predicate Invariant(s: System) {
    Shared(s)
    && (s.attempts != [] ==> s.credentials)
    && (forall t :: t in s.tasks ==> TaskOk(s, t, s.tasks[t]))
    && (forall k :: 0 <= k < |s.attempts| ==> LedFrom(k, s.attempts[k].seen))
  }

  // ---------- every step keeps it ----------

  /** Shared facts that a bystander's own clauses depend on only grow. */
  predicate Extends(s: System, s': System) {
    s.publishedCount <= s'.publishedCount && s.attempts <= s'.attempts && s'.credentials == s.credentials
  }

  /** A task that did not move stays fine, provided no one in its region added an attempt. */
  lemma BystanderOk(s: System, s': System, t: TaskId, task: Task)
    requires TaskOk(s, t, task) && Extends(s, s')
    requires HoldsMutex(task.pc) ==> s'.holder == s.holder && s'.attempts == s.attempts
    ensures TaskOk(s', t, task)
  {
    if task.used > 0 { assert s'.attempts[task.used - 1] == s.attempts[task.used - 1]; }
  }

  ghost predicate OnlyMoves(s: System, s': System, t: TaskId) {
    t in s'.tasks && forall u :: u in s'.tasks && u != t ==> u in s.tasks && s'.tasks[u] == s.tasks[u]
  }

  lemma TasksOk(s: System, s': System, t: TaskId)
    requires Invariant(s) && Extends(s, s') && OnlyMoves(s, s', t)
    requires TaskOk(s', t, s'.tasks[t])
    requires s.holder == Some(t) || (s'.holder == s.holder && s'.attempts == s.attempts)
             || (s.holder.None? && s'.attempts == s.attempts)
    ensures forall u :: u in s'.tasks ==> TaskOk(s', u, s'.tasks[u])
  {
    forall u | u in s'.tasks && u != t ensures TaskOk(s', u, s'.tasks[u]) {
      assert TaskOk(s, u, s.tasks[u]);
      BystanderOk(s, s', u, s.tasks[u]);
    }
  }

  lemma WrapNext(n: nat)
    ensures Wrapped(Wrapped(n) + 1) == Wrapped(n + 1)
  {}

  /** The comparison of wrapped words decides the distance of the unbounded counts modulo 2^64. */
  lemma WrappedEqual(number: nat, seen: nat)
    requires seen <= number
    ensures Wrapped(number) == Wrapped(seen) <==> (number - seen) % TWO_POW_64 == 0
  {}

  lemma LoadKeepsInvariant(s: System, t: TaskId, seen: nat)
    requires Invariant(s) && Enabled(s, Load(t, seen))
    ensures Invariant(Apply(s, Load(t, seen)))
  {
    TasksOk(s, Apply(s, Load(t, seen)), t);
  }

  /** A step outside the critical region that changes nothing but where one request stands. */
  lemma MoveKeepsInvariant(s: System, t: TaskId, pc: Pc)
    requires Invariant(s) && t in s.tasks && !HoldsMutex(s.tasks[t].pc)
    requires TaskOk(s, t, s.tasks[t].(pc := pc))
    ensures Invariant(Move(s, t, pc))
  {
    var s' := Move(s, t, pc);
    BystanderOk(s, s', t, s'.tasks[t]);
    TasksOk(s, s', t);
  }

  lemma FirstResponseOk(s: System, t: TaskId, task: Task, response: Response)
    requires TaskOk(s, t, task) && task.pc == Sending
    ensures TaskOk(s, t, task.(pc := AfterResponse(s, false, response)))
  {}

  lemma SecondResponseOk(s: System, t: TaskId, task: Task, response: Response)
    requires TaskOk(s, t, task) && task.pc == Retrying
    ensures TaskOk(s, t, task.(pc := AfterResponse(s, true, response)))
  {}

  lemma ReceiveKeepsInvariant(s: System, t: TaskId, response: Response)
    requires Invariant(s) && Enabled(s, Receive(t, response))
    ensures Invariant(Apply(s, Receive(t, response)))
  {
    var task := s.tasks[t];
    if task.pc.Sending? {
      FirstResponseOk(s, t, task, response);
    } else {
      SecondResponseOk(s, t, task, response);
    }
    MoveKeepsInvariant(s, t, AfterResponse(s, task.pc.Retrying?, response));
  }

  lemma AcquireKeepsInvariant(s: System, e: Event)
    requires Invariant(s) && Enabled(s, e) && e.Acquire?
    ensures Invariant(Apply(s, e))
  {
    assert TaskOk(s, e.task, s.tasks[e.task]);
    TasksOk(s, Apply(s, e), e.task);
  }

  lemma ProbedKeepsInvariant(s: System, e: Event)
    requires Invariant(s) && Enabled(s, e) && e.Probed?
    ensures Invariant(Apply(s, e))
  {
    assert TaskOk(s, e.task, s.tasks[e.task]);
    TasksOk(s, Apply(s, e), e.task);
  }

  lemma PostedKeepsInvariant(s: System, e: Event)
    requires Invariant(s) && Enabled(s, e) && e.Posted?
    ensures Invariant(Apply(s, e))
  {
    assert TaskOk(s, e.task, s.tasks[e.task]);
    TasksOk(s, Apply(s, e), e.task);
  }

  lemma ReleaseKeepsInvariant(s: System, e: Event)
    requires Invariant(s) && Enabled(s, e) && e.Release?
    ensures Invariant(Apply(s, e))
  {
    assert TaskOk(s, e.task, s.tasks[e.task]);
    TasksOk(s, Apply(s, e), e.task);
  }

  lemma DropKeepsInvariant(s: System, e: Event)
    requires Invariant(s) && Enabled(s, e) && e.Drop?
    ensures Invariant(Apply(s, e))
  {
    assert TaskOk(s, e.task, s.tasks[e.task]);
    if HoldsMutex(s.tasks[e.task].pc) {
      TasksOk(s, Apply(s, e), e.task);
    } else {
      MoveKeepsInvariant(s, e.task, Dropped);
    }
  }

  lemma CompareKeepsInvariant(s: System, t: TaskId)
    requires Invariant(s) && Enabled(s, Compare(t))
    ensures Invariant(Apply(s, Compare(t)))
  {
    assert TaskOk(s, t, s.tasks[t]);
    WrappedEqual(|s.attempts|, s.tasks[t].seen);
    TasksOk(s, Apply(s, Compare(t)), t);
  }

  lemma IncrementKeepsInvariant(s: System, t: TaskId)
    requires Invariant(s) && Enabled(s, Increment(t))
    ensures Invariant(Apply(s, Increment(t)))
  {
    var s' := Apply(s, Increment(t));
    assert TaskOk(s, t, s.tasks[t]);
    WrapNext(|s.attempts|);
    assert s'.attempts[..|s.attempts|] == s.attempts;
    TasksOk(s, s', t);
  }

  lemma RecordKeepsInvariant(s: System, t: TaskId)
    requires Invariant(s) && Enabled(s, Record(t))
    ensures Invariant(Apply(s, Record(t)))
  {
    assert TaskOk(s, t, s.tasks[t]);
    TasksOk(s, Apply(s, Record(t)), t);
  }

  lemma PublishKeepsInvariant(s: System, t: TaskId)
    requires Invariant(s) && Enabled(s, Publish(t))
    ensures Invariant(Apply(s, Publish(t)))
  {
    assert TaskOk(s, t, s.tasks[t]);
    TasksOk(s, Apply(s, Publish(t)), t);
  }

  lemma StepKeepsInvariant(s: System, e: Event)
    requires Invariant(s) && Enabled(s, e)
    ensures Invariant(Apply(s, e))
  {
    match e
    case Load(t, seen) => LoadKeepsInvariant(s, t, seen);
    case Compare(t) => CompareKeepsInvariant(s, t);
    case Increment(t) => IncrementKeepsInvariant(s, t);
    case Record(t) => RecordKeepsInvariant(s, t);
    case Publish(t) => PublishKeepsInvariant(s, t);
    case Receive(t, response) => ReceiveKeepsInvariant(s, t, response);
    case Acquire(_) => AcquireKeepsInvariant(s, e);
    case Probed(_, _) => ProbedKeepsInvariant(s, e);
    case Posted(_, _) => PostedKeepsInvariant(s, e);
    case Release(_) => ReleaseKeepsInvariant(s, e);
    case Drop(_) => DropKeepsInvariant(s, e);
  }

  lemma {:induction false} RunKeepsInvariant(s: System, events: seq<Event>)
    requires Invariant(s) && Run(s, events).Some?
    ensures Invariant(Run(s, events).value)
    decreases |events|
  {
    if events != [] {
      StepKeepsInvariant(s, events[0]);
      RunKeepsInvariant(Apply(s, events[0]), events[1..]);
    }
  }

  lemma ReachableInvariant(s: System)
    requires Reachable(s)
    ensures Invariant(s)
  {
    var credentials, events :| Run(Initial(credentials), events) == Some(s);
    RunKeepsInvariant(Initial(credentials), events);
  }

  // ---------- safety over all runs ----------

  /** Completed attempts are counted modulo 2^64, and the atomic lags only inside the critical region. */
  lemma GenerationCountsAttempts(s: System)
    requires Reachable(s)
    ensures s.generation == Wrapped(|s.attempts|)
    ensures s.published == s.generation || Wrapped(s.published + 1) == s.generation
    ensures s.published != s.generation ==>
            s.holder.Some? && s.holder.value in s.tasks
            && var pc := s.tasks[s.holder.value].pc; pc.Recording? || pc.Publishing?
    ensures s.holder.None? ==> s.published == s.generation
  {
    ReachableInvariant(s);
    WrapNext(s.publishedCount);
  }

  /** At most one request is in the critical region, and it can always proceed. */
  lemma MutualExclusion(s: System, t: TaskId, u: TaskId)
    requires Reachable(s) && t in s.tasks && u in s.tasks
    requires HoldsMutex(s.tasks[t].pc) && HoldsMutex(s.tasks[u].pc)
    ensures t == u && s.holder == Some(t)
    ensures exists e: Event :: e.task == t && Enabled(s, e)
  {
    ReachableInvariant(s);
    assert TaskOk(s, t, s.tasks[t]) && TaskOk(s, u, s.tasks[u]);
    var e := match s.tasks[t].pc
      case Comparing => Compare(t)
      case Probing => Probed(t, NoProbe)
      case Posting => Posted(t, NoPost)
      case Incrementing(_) => Increment(t)
      case Recording(_) => Record(t)
      case Publishing(_) => Publish(t)
      case _ => Release(t);
    assert Enabled(s, e);
  }

  /**
   Attempt `k` (counted from zero) is led from an observation of `k` completed attempts,
   exactly when fewer than 2^64 attempts completed since that observation.
   */
  lemma LeaderSawEveryAttempt(s: System, k: nat)
    requires Reachable(s) && k < |s.attempts|
    ensures s.attempts[k].seen <= k
    ensures s.attempts[k].seen == k <==> k - s.attempts[k].seen < TWO_POW_64
  {
    ReachableInvariant(s);
    assert LedFrom(k, s.attempts[k].seen);
  }

  /** Two completed attempts never share an observation held for fewer than 2^64 completions. */
  lemma OneAttemptPerObservation(s: System, i: nat, j: nat)
    requires Reachable(s) && i < j < |s.attempts|
    requires j - s.attempts[j].seen < TWO_POW_64
    ensures s.attempts[i].seen != s.attempts[j].seen
  {
    LeaderSawEveryAttempt(s, i);
    LeaderSawEveryAttempt(s, j);
  }

  /**
   In a reachable state a request about to compare leads if and only if the number of
   attempts since its observation is a multiple of 2^64; so the wrapped comparison answers
   like an unbounded one exactly when that number is not a positive multiple of 2^64.
   */
  lemma WrappedComparisonIsExact(s: System, t: TaskId)
    requires Reachable(s) && Enabled(s, Compare(t))
    ensures s.tasks[t].seen <= |s.attempts|
    ensures Apply(s, Compare(t)).tasks[t].pc == Probing <==> (|s.attempts| - s.tasks[t].seen) % TWO_POW_64 == 0
    ensures (s.generation == s.tasks[t].observed <==> |s.attempts| == s.tasks[t].seen)
       <==> (|s.attempts| == s.tasks[t].seen || (|s.attempts| - s.tasks[t].seen) % TWO_POW_64 != 0)
  {
    ReachableInvariant(s);
    assert TaskOk(s, t, s.tasks[t]);
    WrappedEqual(|s.attempts|, s.tasks[t].seen);
  }

  /** A follower is served the latest completed attempt, newer than its observation; no `expect` fires. */
  lemma FollowerGetsLatest(s: System, t: TaskId)
    requires Reachable(s) && Enabled(s, Compare(t)) && s.generation != s.tasks[t].observed
    ensures s.attempts != [] && s.lastResult.Some?
    ensures var task := Apply(s, Compare(t)).tasks[t];
            task.pc == Releasing(s.attempts[|s.attempts| - 1].outcome) && task.seen < task.used == |s.attempts|
  {
    ReachableInvariant(s);
    assert TaskOk(s, t, s.tasks[t]);
    WrappedEqual(|s.attempts|, s.tasks[t].seen);
  }

  /** Every result in use, by leader or follower, is that of an attempt after the observation. */
  lemma ResultsAreLater(s: System, t: TaskId)
    requires Reachable(s) && t in s.tasks
    ensures var task := s.tasks[t];
            && task.pc != Panicked
            && (HoldsMutex(task.pc) ==> s.credentials)
            && (task.used > 0 ==> s.credentials && task.seen < task.used <= |s.attempts|)
            && (task.pc.Releasing? ==> UsesLater(s, task, task.pc.outcome))
            && (task.pc.Retrying? || task.pc == Finished(StillUnauthorized) ==> UsesLater(s, task, Authenticated))
            && (task.pc.Finished? && task.pc.reply.AuthenticationFailed? ==>
                  UsesLater(s, task, Failed(task.pc.reply.error)))
  {
    ReachableInvariant(s);
    assert TaskOk(s, t, s.tasks[t]);
  }

  /** Dropping a request where it awaits changes no shared value and frees the mutex it held. */
  lemma DropIsHarmless(s: System, t: TaskId)
    requires Reachable(s) && Enabled(s, Drop(t))
    ensures var s' := Apply(s, Drop(t));
            && s'.generation == s.generation && s'.lastResult == s.lastResult && s'.published == s.published
            && s'.attempts == s.attempts
            && s'.holder == (if HoldsMutex(s.tasks[t].pc) then None else s.holder)
            && (s'.holder.None? ==> Settled(s'))
  {
    ReachableInvariant(s);
    StepKeepsInvariant(s, Drop(t));
    assert TaskOk(s, t, s.tasks[t]);
  }

  // ---------- one call, uninterrupted ----------

  datatype Cell = Cell(generation: U64, lastResult: Option<Outcome>, published: U64)

  function CellOf(s: System): Cell {
    Cell(s.generation, s.lastResult, s.published)
  }

  function AfterCall(c: Cell, observed: U64, outcome: Outcome): Cell {
    if c.generation != observed then c
    else Cell(Wrapped(c.generation + 1), Some(outcome), Wrapped(c.generation + 1))
  }

  function CallResult(c: Cell, observed: U64, outcome: Outcome): Option<Outcome> {
    if c.generation != observed then c.lastResult else Some(outcome)
  }

  function AttemptOutcome(probe: ProbeReply, post: PostReply): Outcome {
    match AfterProbe(probe)
    case Incrementing(outcome) => outcome
    case _ => PostOutcome(post)
  }

  /** A challenge to which a POST is sent. */
  predicate Answerable(probe: ProbeReply) {
    probe.ProbeStatus? && probe.code == 401 && Usable(probe.headers.realm) && Usable(probe.headers.nonce)
    && probe.writes
  }

  /** An attempt succeeds when the router already lets us in, or accepts the answered challenge. */
  method PerformAuthentication(probe: ProbeReply, post: PostReply) returns (outcome: Outcome)
    ensures outcome == AttemptOutcome(probe, post)
    ensures outcome == Authenticated <==>
            probe.ProbeStatus? && (probe.code == 200 || (Answerable(probe)
                                   && post.PostStatus? && 200 <= post.code < 300))
    ensures outcome == Failed(RejectedCredentials) <==> Answerable(probe) && post == PostStatus(401)
    ensures outcome == Failed(Unreachable) <==> probe.NoProbe? || (Answerable(probe) && post.NoPost?)
    ensures forall code :: outcome == Failed(BadStatus(code)) <==>
              (probe.ProbeStatus? && probe.code == code && code != 200 && code != 401)
              || (Answerable(probe) && post == PostStatus(code) && code != 401 && !(200 <= code < 300))
    ensures forall reason :: outcome == Failed(BadChallenge(reason)) <==>
              probe.ProbeStatus? && probe.code == 401 && ParseChallenge(probe.headers) == Err(reason)
    ensures outcome == Failed(BodyNotWritten) <==>
            probe.ProbeStatus? && probe.code == 401 && Usable(probe.headers.realm) && Usable(probe.headers.nonce)
            && !probe.writes
  {
    if probe.NoProbe? {
      return Failed(Unreachable);
    }
    if probe.code == 200 {
      return Authenticated;
    }
    if probe.code != 401 {
      return Failed(BadStatus(probe.code));
    }
    var challenge := ParseChallenge(probe.headers);
    if challenge.Err? {
      return Failed(BadChallenge(challenge.error));
    }
    if !probe.writes {
      return Failed(BodyNotWritten);
    }
    if post.NoPost? {
      return Failed(Unreachable);
    }
    if post.code == 401 {
      return Failed(RejectedCredentials);
    }
    if !(200 <= post.code < 300) {
      return Failed(BadStatus(post.code));
    }
    outcome := Authenticated;
  }

  /** The shared state as the client holds it. */
  class AuthCell {
    var generation: U64
    var lastResult: Option<Outcome>
    var published: U64

    constructor ()
      ensures View() == CellOf(Initial(true))
    {
      generation, lastResult, published := 0, None, 0;
    }

    function View(): Cell
      reads this
    {
      Cell(generation, lastResult, published)
    }

    /** `probe` and `post` are the answers that the requests of this call would get. */
    method Authenticate(observed: U64, probe: ProbeReply, post: PostReply) returns (result: Outcome)
      requires generation != observed ==> lastResult.Some?
      modifies this
      ensures View() == AfterCall(old(View()), observed, AttemptOutcome(probe, post))
      ensures Some(result) == CallResult(old(View()), observed, AttemptOutcome(probe, post))
    {
      if generation != observed {
        return lastResult.value;
      }
      result := PerformAuthentication(probe, post);
      generation := (generation + 1) % TWO_POW_64;
      lastResult := Some(result);
      published := generation;
    }
  }

  lemma {:induction false} RunSnoc(s: System, events: seq<Event>, m: System, e: Event)
    requires Run(s, events) == Some(m) && Enabled(m, e)
    ensures Run(s, events + [e]) == Some(Apply(m, e))
    decreases |events|
  {
    if events == [] {
      assert (events + [e])[1..] == [];
    } else {
      assert (events + [e])[1..] == events[1..] + [e];
      RunSnoc(Apply(s, events[0]), events[1..], m, e);
    }
  }

  lemma {:induction false} RunConcat(s: System, a: seq<Event>, m: System, b: seq<Event>)
    requires Run(s, a) == Some(m)
    ensures Run(s, a + b) == Run(m, b)
    decreases |a|
  {
    if a == [] {
      assert a + b == b;
    } else {
      assert (a + b)[1..] == a[1..] + b;
      RunConcat(Apply(s, a[0]), a[1..], m, b);
    }
  }

  /** The awaited part of an attempt: the GET, and the POST after a challenge. */
  function AttemptEvents(t: TaskId, probe: ProbeReply, post: PostReply): seq<Event> {
    [Probed(t, probe)] + if AfterProbe(probe).Posting? then [Posted(t, post)] else []
  }

  /** The critical region of `t` from a free mutex. */
  function CallEvents(leads: bool, t: TaskId, probe: ProbeReply, post: PostReply): seq<Event> {
    [Acquire(t), Compare(t)]
    + (if leads then AttemptEvents(t, probe, post) + [Increment(t), Record(t), Publish(t)] else [])
    + [Release(t)]
  }

  lemma RunThree(s: System, a: Event, b: Event, c: Event)
    requires Enabled(s, a) && Enabled(Apply(s, a), b) && Enabled(Apply(Apply(s, a), b), c)
    ensures Run(s, [a, b, c]) == Some(Apply(Apply(Apply(s, a), b), c))
  {
    var s1 := Apply(s, a);
    RunTwo(s1, b, c);
    assert [a, b, c][1..] == [b, c];
  }

  lemma RunOne(s: System, a: Event)
    requires Enabled(s, a)
    ensures Run(s, [a]) == Some(Apply(s, a))
  {
    assert [a][1..] == [];
  }

  lemma RunTwo(s: System, a: Event, b: Event)
    requires Enabled(s, a) && Enabled(Apply(s, a), b)
    ensures Run(s, [a, b]) == Some(Apply(Apply(s, a), b))
  {
    var s1, s2 := Apply(s, a), Apply(Apply(s, a), b);
    assert [b][1..] == [] && [a, b][1..] == [b];
    assert Run(s1, [b]) == Run(s2, []);
  }

  ghost predicate OthersKept(s: System, s': System, t: TaskId) {
    s'.tasks.Keys == s.tasks.Keys && (forall u :: u in s.tasks && u != t ==> s'.tasks[u] == s.tasks[u])
    && s'.credentials == s.credentials
  }

  lemma RunAttempt(s: System, t: TaskId, probe: ProbeReply, post: PostReply)
    requires At(s, t, Probing)
    ensures Run(s, AttemptEvents(t, probe, post))
         == Some(Move(s, t, Incrementing(AttemptOutcome(probe, post))))
  {
    var probed, posted := Probed(t, probe), Posted(t, post);
    if AfterProbe(probe).Posting? {
      RunTwo(s, probed, posted);
      assert Apply(Apply(s, probed), posted).tasks == Move(s, t, Incrementing(AttemptOutcome(probe, post))).tasks;
      assert [probed] + [posted] == [probed, posted];
    } else {
      RunOne(s, probed);
      assert [probed] + [] == [probed];
    }
  }

  /** The state in which `t` leaves the stretch that cannot be dropped. */
  function Led(s: System, t: TaskId, outcome: Outcome): System
    requires t in s.tasks
  {
    var next, n := Wrapped(s.generation + 1), |s.attempts| + 1;
    s.(generation := next, lastResult := Some(outcome), published := next, publishedCount := n,
       attempts := s.attempts + [Attempt(t, s.tasks[t].seen, outcome)],
       tasks := s.tasks[t := s.tasks[t].(pc := Releasing(outcome), used := n)])
  }

  /** The stretch that cannot be dropped, from the end of the attempt to the published generation. */
  lemma RunPublication(s: System, t: TaskId, outcome: Outcome)
    requires At(s, t, Incrementing(outcome))
    ensures Run(s, [Increment(t), Record(t), Publish(t)]) == Some(Led(s, t, outcome))
  {
    var s1 := Apply(s, Increment(t));
    var s2 := Apply(s1, Record(t));
    assert Apply(s2, Publish(t)).tasks == Led(s, t, outcome).tasks;
    RunThree(s, Increment(t), Record(t), Publish(t));
  }

  lemma RunLeading(s: System, t: TaskId, probe: ProbeReply, post: PostReply)
    requires At(s, t, Probing)
    ensures Run(s, AttemptEvents(t, probe, post) + [Increment(t), Record(t), Publish(t)])
         == Some(Led(s, t, AttemptOutcome(probe, post)))
  {
    var outcome := AttemptOutcome(probe, post);
    var tried := Move(s, t, Incrementing(outcome));
    RunAttempt(s, t, probe, post);
    RunPublication(tried, t, outcome);
    assert Led(tried, t, outcome) == Led(s, t, outcome);
    RunConcat(s, AttemptEvents(t, probe, post), tried, [Increment(t), Record(t), Publish(t)]);
  }

  /** The state in which `t` has compared generations. */
  function Entered(s: System, t: TaskId): System
    requires At(s, t, Locking) && (s.generation != s.tasks[t].observed ==> s.lastResult.Some?)
  {
    if s.generation == s.tasks[t].observed then Move(s, t, Probing).(holder := Some(t))
    else Served(s, t, Releasing(s.lastResult.value)).(holder := Some(t))
  }

  lemma EntryEffect(s: System, t: TaskId)
    requires s.holder.None? && At(s, t, Locking)
    requires s.generation != s.tasks[t].observed ==> s.lastResult.Some?
    ensures Enabled(Apply(s, Acquire(t)), Compare(t))
    ensures Apply(Apply(s, Acquire(t)), Compare(t)) == Entered(s, t)
  {
    assert Apply(Apply(s, Acquire(t)), Compare(t)).tasks == Entered(s, t).tasks;
  }

  lemma RunEntry(s: System, t: TaskId)
    requires s.holder.None? && At(s, t, Locking)
    requires s.generation != s.tasks[t].observed ==> s.lastResult.Some?
    ensures Run(s, [Acquire(t), Compare(t)]) == Some(Entered(s, t))
  {
    EntryEffect(s, t);
    RunTwo(s, Acquire(t), Compare(t));
  }

  /** The state after an uninterrupted call by `t` that would have the given outcome. */
  function Called(s: System, t: TaskId, outcome: Outcome): System
    requires t in s.tasks && (s.generation != s.tasks[t].observed ==> s.lastResult.Some?)
  {
    if s.generation == s.tasks[t].observed then Move(Led(s, t, outcome), t, AfterAuthentication(outcome))
    else Served(s, t, AfterAuthentication(s.lastResult.value))
  }

  lemma LeaderLeaves(s: System, t: TaskId, outcome: Outcome)
    requires s.holder.None? && At(s, t, Locking) && s.generation == s.tasks[t].observed
    ensures Apply(Led(Entered(s, t), t, outcome), Release(t)) == Called(s, t, outcome)
  {
    assert Apply(Led(Entered(s, t), t, outcome), Release(t)).tasks == Called(s, t, outcome).tasks;
  }

  lemma FollowerLeaves(s: System, t: TaskId, outcome: Outcome)
    requires s.holder.None? && At(s, t, Locking) && s.generation != s.tasks[t].observed && s.lastResult.Some?
    ensures Apply(Entered(s, t), Release(t)) == Called(s, t, outcome)
  {
    assert Apply(Entered(s, t), Release(t)).tasks == Called(s, t, outcome).tasks;
  }

  lemma RunLeader(s: System, t: TaskId, probe: ProbeReply, post: PostReply)
    requires s.holder.None? && At(s, t, Locking) && s.generation == s.tasks[t].observed
    ensures Run(s, CallEvents(true, t, probe, post)) == Some(Called(s, t, AttemptOutcome(probe, post)))
  {
    var outcome, entry, m := AttemptOutcome(probe, post), [Acquire(t), Compare(t)], Entered(s, t);
    var leading := AttemptEvents(t, probe, post) + [Increment(t), Record(t), Publish(t)];
    RunEntry(s, t);
    RunLeading(m, t, probe, post);
    RunConcat(s, entry, m, leading);
    RunSnoc(s, entry + leading, Led(m, t, outcome), Release(t));
    LeaderLeaves(s, t, outcome);
  }

  lemma RunFollower(s: System, t: TaskId, probe: ProbeReply, post: PostReply)
    requires s.holder.None? && At(s, t, Locking) && s.generation != s.tasks[t].observed && s.lastResult.Some?
    ensures Run(s, CallEvents(false, t, probe, post)) == Some(Called(s, t, AttemptOutcome(probe, post)))
  {
    var entry, m := [Acquire(t), Compare(t)], Entered(s, t);
    RunEntry(s, t);
    RunSnoc(s, entry, m, Release(t));
    assert entry + [] + [Release(t)] == entry + [Release(t)];
    FollowerLeaves(s, t, AttemptOutcome(probe, post));
  }

  lemma MismatchHasResult(s: System, t: TaskId)
    requires Invariant(s) && s.holder.None? && t in s.tasks && s.generation != s.tasks[t].observed
    ensures s.lastResult.Some?
  {
    assert TaskOk(s, t, s.tasks[t]);
  }

  /** What an uninterrupted call makes of the shared state and of the other requests. */
  ghost predicate HasEffect(s: System, s': System, t: TaskId, outcome: Outcome)
    requires t in s.tasks
  {
    var result := CallResult(CellOf(s), s.tasks[t].observed, outcome);
    && CellOf(s') == AfterCall(CellOf(s), s.tasks[t].observed, outcome)
    && s'.holder.None? && OthersKept(s, s', t)
    && result.Some? && At(s', t, AfterAuthentication(result.value))
    && s'.attempts == if s.generation == s.tasks[t].observed
                      then s.attempts + [Attempt(t, s.tasks[t].seen, outcome)] else s.attempts
  }

  lemma CalledHasEffect(s: System, t: TaskId, outcome: Outcome)
    requires s.holder.None? && s.published == s.generation && t in s.tasks
    requires s.generation != s.tasks[t].observed ==> s.lastResult.Some?
    ensures HasEffect(s, Called(s, t, outcome), t, outcome)
  {}

  /** An uninterrupted call of `authenticate` is a run of the transition system with the same effect. */
  lemma RunCall(s: System, t: TaskId, probe: ProbeReply, post: PostReply) returns (s': System)
    requires Invariant(s) && s.holder.None? && At(s, t, Locking)
    ensures Run(s, CallEvents(s.generation == s.tasks[t].observed, t, probe, post)) == Some(s')
    ensures Invariant(s') && HasEffect(s, s', t, AttemptOutcome(probe, post))
  {
    var leads := s.generation == s.tasks[t].observed;
    if leads {
      RunLeader(s, t, probe, post);
    } else {
      MismatchHasResult(s, t);
      RunFollower(s, t, probe, post);
    }
    s' := Called(s, t, AttemptOutcome(probe, post));
    RunKeepsInvariant(s, CallEvents(leads, t, probe, post));
    CalledHasEffect(s, t, AttemptOutcome(probe, post));
  }

  // ---------- 2^64 completions do defeat the comparison ----------

  const LET_IN := ProbeStatus(200, Headers(None, None), true)

  /** A fresh request observes every completed attempt and is refused. */
  lemma RunArrival(s: System, t: TaskId) returns (s': System)
    requires Invariant(s) && s.holder.None? && s.credentials && t !in s.tasks
    ensures Run(s, [Load(t, |s.attempts|), Receive(t, Unauthorized)]) == Some(s') && Invariant(s')
    ensures s' == s.(tasks := s.tasks[t := Task(Wrapped(|s.attempts|), |s.attempts|, Locking, 0)])
  {
    var load, receive := Load(t, |s.attempts|), Receive(t, Unauthorized);
    s' := Apply(Apply(s, load), receive);
    RunTwo(s, load, receive);
    RunKeepsInvariant(s, [load, receive]);
  }

  /** A fresh request runs one complete attempt while task 0 keeps waiting for its response. */
  lemma OneMoreAttempt(s: System, t: TaskId) returns (events: seq<Event>, s': System)
    requires Invariant(s) && s.holder.None? && s.credentials && t !in s.tasks && t != 0 && 0 in s.tasks
    ensures Run(s, events) == Some(s') && Invariant(s') && s'.holder.None? && s'.credentials
    ensures s'.tasks.Keys == s.tasks.Keys + {t} && s'.tasks[0] == s.tasks[0]
    ensures s'.attempts == s.attempts + [Attempt(t, |s.attempts|, Authenticated)]
  {
    var load, receive := Load(t, |s.attempts|), Receive(t, Unauthorized);
    var s2 := RunArrival(s, t);
    s' := RunCall(s2, t, LET_IN, NoPost);
    var call := CallEvents(true, t, LET_IN, NoPost);
    events := [load, receive] + call;
    RunConcat(s, [load, receive], s2, call);
  }

  lemma {:induction false} ManyAttempts(n: nat) returns (events: seq<Event>, s: System)
    ensures Run(Initial(true), events) == Some(s) && Invariant(s) && s.holder.None? && s.credentials
    ensures 0 in s.tasks && s.tasks[0] == Task(0, 0, Sending, 0)
    ensures forall t :: t in s.tasks ==> t <= n
    ensures |s.attempts| == n && (n > 0 ==> s.attempts[0].seen == 0)
  {
    if n == 0 {
      var start := Initial(true);
      events, s := [Load(0, 0)], Apply(start, Load(0, 0));
      RunSnoc(start, [], start, Load(0, 0));
      assert [] + [Load(0, 0)] == events;
      StepKeepsInvariant(start, Load(0, 0));
    } else {
      var before, m := ManyAttempts(n - 1);
      var more, s' := OneMoreAttempt(m, n);
      RunConcat(Initial(true), before, m, more);
      events, s := before + more, s';
    }
  }

  lemma ReachedAfter(first: seq<Event>, m: System, second: seq<Event>, s: System)
    requires Run(Initial(true), first) == Some(m) && Run(m, second) == Some(s)
    ensures Reachable(s)
  {
    RunConcat(Initial(true), first, m, second);
    assert Run(Initial(true), first + second) == Some(s);
  }

  /** A request whose first response takes `n` attempts to arrive leads again when 2^64 divides `n`. */
  lemma LeadsAgain(n: nat) returns (s: System)
    requires n > 0 && n % TWO_POW_64 == 0
    ensures Reachable(s) && |s.attempts| == n + 1
    ensures s.attempts[0].seen == s.attempts[n].seen == 0
  {
    var events, m := ManyAttempts(n);
    var receive := Receive(0, Unauthorized);
    var m1 := Apply(m, receive);
    StepKeepsInvariant(m, receive);
    RunSnoc(Initial(true), events, m, receive);
    assert m1.generation == Wrapped(n) == 0;
    s := RunCall(m1, 0, LET_IN, NoPost);
    var call := CallEvents(true, 0, LET_IN, NoPost);
    ReachedAfter(events + [receive], m1, call, s);
  }

  /** The bound is needed: after 2^64 completions one observation leads a second attempt. */
  lemma ObservationReusedAfterWrap()
    ensures exists s :: Reachable(s) && |s.attempts| == TWO_POW_64 + 1
                        && s.attempts[0].seen == s.attempts[TWO_POW_64].seen
  {
    var s := LeadsAgain(TWO_POW_64);
  }
}
