/**
 What one request goes through, told by its own events alone: which responses it received,
 when it sent again, and which reply its caller got for them.
 */
module RequestLife {
  import opened Bytes
  import opened SingleFlight

  /** The events of request `t`, in order. */
  function Life(events: seq<Event>, t: TaskId): seq<Event> {
    if events == [] then []
    else
      var last := events[|events| - 1];
      Life(events[..|events| - 1], t) + if last.task == t then [last] else []
  }

  /** The responses to its own sends, in order. */
  function Responses(life: seq<Event>): seq<Response> {
    if life == [] then []
    else
      var last := life[|life| - 1];
      Responses(life[..|life| - 1]) + if last.Receive? then [last.response] else []
  }

  lemma LifeSnoc(events: seq<Event>, e: Event, t: TaskId)
    ensures Life(events + [e], t) == if e.task == t then Life(events, t) + [e] else Life(events, t)
  {
    assert (events + [e])[..|events|] == events;
    assert Life(events, t) + [] == Life(events, t);
  }

  lemma ResponsesSnoc(life: seq<Event>, e: Event)
    ensures Responses(life + [e]) == if e.Receive? then Responses(life) + [e.response] else Responses(life)
  {
    assert (life + [e])[..|life|] == life;
    assert Responses(life) + [] == Responses(life);
  }

  predicate JustReleased(life: seq<Event>) {
    life != [] && life[|life| - 1].Release?
  }

  /** This was the only response, or a second one right behind the release of the mutex. */
  predicate Answered(life: seq<Event>, used: nat, response: Response) {
    if used == 0 then Responses(life) == [response]
    else
      |life| >= 2 && JustReleased(life[..|life| - 1]) && life[|life| - 1].Receive?
      && Responses(life) == [Unauthorized, response]
  }

  /** How the place of a request follows from its life. */
  predicate Fits(credentials: bool, life: seq<Event>, pc: Pc, used: nat) {
    match pc
    case Sending => Responses(life) == []
    case Retrying => Responses(life) == [Unauthorized] && JustReleased(life)
    case Finished(TransportError) => Answered(life, used, NoResponse)
    case Finished(Passed) => Answered(life, used, Other)
    case Finished(StillUnauthorized) => used > 0 && Answered(life, used, Unauthorized)
    case Finished(CredentialsRequired) => !credentials && Responses(life) == [Unauthorized]
    case Finished(AuthenticationFailed(_)) => Responses(life) == [Unauthorized] && JustReleased(life)
    case Dropped => true
    case _ => Responses(life) == [Unauthorized]
  }

  predicate LifeFits(s: System, life: seq<Event>, t: TaskId) {
    if t in s.tasks then Fits(s.credentials, life, s.tasks[t].pc, s.tasks[t].used) else life == []
  }

  lemma OthersStay(s: System, e: Event, t: TaskId)
    requires Enabled(s, e) && e.task != t
    ensures Apply(s, e).credentials == s.credentials
    ensures t in Apply(s, e).tasks <==> t in s.tasks
    ensures t in s.tasks ==> Apply(s, e).tasks[t] == s.tasks[t]
  {}

  lemma ReceiveFits(s: System, life: seq<Event>, e: Event)
    requires Enabled(s, e) && e.Receive? && LifeFits(s, life, e.task) && TaskOk(s, e.task, s.tasks[e.task])
    ensures LifeFits(Apply(s, e), life + [e], e.task)
  {
    ResponsesSnoc(life, e);
    assert (life + [e])[..|life|] == life;
  }

  /** Between the first response and the release of the mutex, and for one waiting for it. */
  predicate Inside(pc: Pc) {
    pc.Locking? || pc.Panicked? || HoldsMutex(pc)
  }

  lemma StepInside(s: System, e: Event)
    requires Enabled(s, e) && !e.Load? && !e.Receive? && !e.Release? && !e.Drop?
    ensures Inside(s.tasks[e.task].pc) && e.task in Apply(s, e).tasks && Inside(Apply(s, e).tasks[e.task].pc)
    ensures Apply(s, e).credentials == s.credentials
  {}

  lemma FitsInside(credentials: bool, life: seq<Event>, pc: Pc, used: nat)
    requires Inside(pc)
    ensures Fits(credentials, life, pc, used) <==> Responses(life) == [Unauthorized]
  {}

  lemma ReleaseFits(s: System, life: seq<Event>, e: Event)
    requires Enabled(s, e) && e.Release? && LifeFits(s, life, e.task)
    ensures LifeFits(Apply(s, e), life + [e], e.task)
  {
    ResponsesSnoc(life, e);
    FitsInside(s.credentials, life, s.tasks[e.task].pc, s.tasks[e.task].used);
  }

  lemma EdgeFits(s: System, life: seq<Event>, e: Event)
    requires Enabled(s, e) && (e.Load? || e.Drop?) && LifeFits(s, life, e.task)
    ensures LifeFits(Apply(s, e), life + [e], e.task)
  {
    ResponsesSnoc(life, e);
  }

  lemma OwnStepFits(s: System, life: seq<Event>, e: Event)
    requires Enabled(s, e) && !e.Receive? && LifeFits(s, life, e.task)
    ensures LifeFits(Apply(s, e), life + [e], e.task)
  {
    if e.Release? {
      ReleaseFits(s, life, e);
    } else if e.Load? || e.Drop? {
      EdgeFits(s, life, e);
    } else {
      var s' := Apply(s, e);
      StepInside(s, e);
      ResponsesSnoc(life, e);
      FitsInside(s.credentials, life, s.tasks[e.task].pc, s.tasks[e.task].used);
      FitsInside(s'.credentials, life + [e], s'.tasks[e.task].pc, s'.tasks[e.task].used);
    }
  }

  lemma RunPrefix(s: System, front: seq<Event>, e: Event)
    requires Run(s, front + [e]).Some?
    ensures Run(s, front).Some? && Enabled(Run(s, front).value, e)
    ensures Run(s, front + [e]) == Some(Apply(Run(s, front).value, e))
    decreases |front|
  {
    var all := front + [e];
    if front == [] {
      assert all[1..] == [];
    } else {
      assert all[1..] == front[1..] + [e];
      RunPrefix(Apply(s, front[0]), front[1..], e);
    }
  }

  lemma CredentialsStay(s: System, e: Event)
    requires Enabled(s, e)
    ensures Apply(s, e).credentials == s.credentials
  {}

  lemma StepFits(s: System, front: seq<Event>, e: Event, t: TaskId)
    requires Enabled(s, e) && LifeFits(s, Life(front, t), t) && (t in s.tasks ==> TaskOk(s, t, s.tasks[t]))
    ensures LifeFits(Apply(s, e), Life(front + [e], t), t)
  {
    LifeSnoc(front, e, t);
    if e.task != t {
      OthersStay(s, e, t);
    } else if e.Receive? {
      ReceiveFits(s, Life(front, t), e);
    } else {
      OwnStepFits(s, Life(front, t), e);
    }
  }

  lemma TaskIsOk(s: System, t: TaskId)
    requires Invariant(s)
    ensures t in s.tasks ==> TaskOk(s, t, s.tasks[t])
  {}

  lemma {:induction false} LivesFit(credentials: bool, events: seq<Event>, t: TaskId)
    requires Run(Initial(credentials), events).Some?
    ensures var s := Run(Initial(credentials), events).value;
            s.credentials == credentials && LifeFits(s, Life(events, t), t)
  {
    if events != [] {
      var start, front, e := Initial(credentials), events[..|events| - 1], events[|events| - 1];
      assert events == front + [e];
      RunPrefix(start, front, e);
      LivesFit(credentials, front, t);
      var s := Run(start, front).value;
      RunKeepsInvariant(start, front);
      TaskIsOk(s, t);
      CredentialsStay(s, e);
      StepFits(s, front, e, t);
    }
  }

  /** Which reply goes with which responses. */
  predicate Decides(credentials: bool, responses: seq<Response>, reply: Reply) {
    responses != []
    && (reply == Passed <==> responses[|responses| - 1] == Other)
    && (reply == TransportError <==> responses[|responses| - 1] == NoResponse)
    && (reply == StillUnauthorized <==> responses == [Unauthorized, Unauthorized])
    && (reply == CredentialsRequired <==> responses == [Unauthorized] && !credentials)
    && (reply.AuthenticationFailed? <==> responses == [Unauthorized] && credentials)
  }

  lemma FitDecides(credentials: bool, life: seq<Event>, reply: Reply, used: nat)
    requires Fits(credentials, life, Finished(reply), used)
    requires reply.AuthenticationFailed? ==> credentials
    ensures Decides(credentials, Responses(life), reply)
  {}

  lemma FitSends(credentials: bool, life: seq<Event>, reply: Reply, used: nat)
    requires Fits(credentials, life, Finished(reply), used)
    ensures var responses := Responses(life);
            && (|responses| == 1
                || (|responses| == 2 && responses[0] == Unauthorized && JustReleased(life[..|life| - 1])))
            && (|responses| == 2 <==> used > 0 && !reply.AuthenticationFailed? && !reply.CredentialsRequired?)
  {}

  /**
   The reply of a finished request, from the events alone. It sends once, or a second time
   after a 401 and a successful authentication; the second response comes straight after the
   release of the mutex, and the last response decides.
   */
  lemma ReplyFollowsResponses(credentials: bool, events: seq<Event>, s: System, t: TaskId)
    requires Run(Initial(credentials), events) == Some(s) && t in s.tasks && s.tasks[t].pc.Finished?
    ensures var life, task := Life(events, t), s.tasks[t];
            var responses, reply := Responses(life), task.pc.reply;
            && Decides(credentials, responses, reply)
            && (reply.AuthenticationFailed? ==> UsesLater(s, task, Failed(reply.error)))
            && (|responses| == 1
                || (|responses| == 2 && responses[0] == Unauthorized && JustReleased(life[..|life| - 1])))
            && (|responses| == 2 <==> UsesLater(s, task, Authenticated))
  {
    var task := s.tasks[t];
    LivesFit(credentials, events, t);
    RunKeepsInvariant(Initial(credentials), events);
    assert TaskOk(s, t, task);
    FitDecides(credentials, Life(events, t), task.pc.reply, task.used);
    FitSends(credentials, Life(events, t), task.pc.reply, task.used);
  }

  predicate Possible(s: System, t: TaskId, e: Event) {
    e.task == t && Enabled(s, e)
  }

  /** The next step of a request that can take one. */
  function NextStep(pc: Pc, t: TaskId): Event {
    match pc
    case Sending => Receive(t, Other)
    case Retrying => Receive(t, Other)
    case Locking => Acquire(t)
    case Comparing => Compare(t)
    case Probing => Probed(t, NoProbe)
    case Posting => Posted(t, NoPost)
    case Incrementing(_) => Increment(t)
    case Recording(_) => Record(t)
    case Publishing(_) => Publish(t)
    case _ => Release(t)
  }

  predicate CanProceed(s: System, pc: Pc) {
    !pc.Finished? && !pc.Dropped? && (pc.Locking? ==> s.holder.None?)
  }

  lemma NextStepPossible(s: System, t: TaskId)
    requires t in s.tasks && !s.tasks[t].pc.Panicked? && CanProceed(s, s.tasks[t].pc)
    ensures Possible(s, t, NextStep(s.tasks[t].pc, t)) && !NextStep(s.tasks[t].pc, t).Drop?
  {}

  lemma OnlyNextStep(s: System, t: TaskId, e: Event)
    requires t in s.tasks && Possible(s, t, e)
    ensures !s.tasks[t].pc.Finished? && !s.tasks[t].pc.Dropped?
    ensures !e.Drop? ==> CanProceed(s, s.tasks[t].pc)
    ensures !Awaits(s.tasks[t].pc) ==> e == NextStep(s.tasks[t].pc, t)
  {}

  /**
   What may happen to a request. Where it awaits it can be dropped, and it can proceed unless
   it awaits a mutex that another request holds; where it does not await, exactly one step of
   its own is possible and no drop; once it has ended, nothing is.
   */
  lemma StepsOfRequest(s: System, t: TaskId)
    requires Reachable(s) && t in s.tasks
    ensures var pc := s.tasks[t].pc;
            && (Possible(s, t, Drop(t)) <==> pc.Sending? || pc.Locking? || pc.Probing? || pc.Posting? || pc.Retrying?)
            && (pc.Finished? || pc.Dropped? <==> forall e :: !Possible(s, t, e))
            && ((exists e: Event :: !e.Drop? && Possible(s, t, e)) <==>
                !pc.Finished? && !pc.Dropped? && (pc.Locking? ==> s.holder.None?))
            && (!Possible(s, t, Drop(t)) ==> forall e, f :: Possible(s, t, e) && Possible(s, t, f) ==> e == f)
  {
    ReachableInvariant(s);
    assert TaskOk(s, t, s.tasks[t]);
    forall e | Possible(s, t, e)
      ensures !s.tasks[t].pc.Finished? && !s.tasks[t].pc.Dropped? && (!e.Drop? ==> CanProceed(s, s.tasks[t].pc))
      ensures !Awaits(s.tasks[t].pc) ==> e == NextStep(s.tasks[t].pc, t)
    {
      OnlyNextStep(s, t, e);
    }
    if CanProceed(s, s.tasks[t].pc) {
      NextStepPossible(s, t);
    } else if s.tasks[t].pc.Locking? {
      assert Possible(s, t, Drop(t));
    }
  }
}
