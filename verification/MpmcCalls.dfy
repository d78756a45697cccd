/** Every call of push and pull gets its own answer: in any interleaving the outcomes of a
    thread are those of its calls, one for one and in their order. */
module MpmcCalls {
  import opened MpmcModel
  import opened MpmcTheorems

  /** The calls a thread starts in a run: what it is told to start while it is idle. */
  function Calls(s: State, sched: Schedule, t: Tid): seq<Choice>
    requires |s.cells| >= 1
    decreases |sched|
  {
    if sched == [] then []
    else
      var (before, (u, c)) := (sched[..|sched| - 1], sched[|sched| - 1]);
      Calls(s, before, t) + (if u == t && PcOf(Run(s, before), t) == Idle && !c.Go? then [c] else [])
  }

  /** What the calls of a thread that have returned came to. */
  function Outcomes(events: seq<Event>, t: Tid): seq<Event> {
    if events == [] then []
    else
      var e := events[|events| - 1];
      Outcomes(events[..|events| - 1], t) + (if e.t == t then [e] else [])
  }

  /** The outcome belongs to the call: a push stores the value it was given or fails. */
  ghost predicate Answers(e: Event, call: Choice) {
    match call
    case StartPush(v) => e.PushFailed? || (e.Pushed? && e.v == v)
    case StartPull => e.Pulled? || e.PullFailed?
    case Go(_) => false
  }

  /** The thread is at work on this call. */
  ghost predicate Serves(pc: Pc, call: Choice) {
    match pc
    case Idle => false
    case PushLoadTail(v) => call == StartPush(v)
    case PushLoadSeq(v, _) => call == StartPush(v)
    case PushCas(v, _) => call == StartPush(v)
    case PushWrite(v, _) => call == StartPush(v)
    case PushPublish(v, _) => call == StartPush(v)
    case _ => call == StartPull
  }

  /** So many calls were answered, and the last one is under way if the thread is busy. */
  ghost predicate Settled(pc: Pc, calls: seq<Choice>, outcomes: seq<Event>) {
    && |calls| == |outcomes| + (if pc == Idle then 0 else 1)
    && (forall i | 0 <= i < |outcomes| :: Answers(outcomes[i], calls[i]))
    && (pc != Idle ==> Serves(pc, calls[|calls| - 1]))
  }

  lemma OutcomesNext(events: seq<Event>, e: Event, t: Tid)
    ensures Outcomes(events + [e], t) == Outcomes(events, t) + (if e.t == t then [e] else [])
  {
    assert (events + [e])[..|events|] == events;
  }

  /** An access adds at most one event, of its own thread. */
  lemma StepEvents(s: State, u: Tid, c: Choice)
    requires |s.cells| >= 1
    ensures var r := Step(s, u, c);
            r.events == s.events || (r.events != [] && r.events == s.events + [r.events[|r.events| - 1]]
                                     && r.events[|r.events| - 1].t == u)
    ensures forall t | t != u :: PcOf(Step(s, u, c), t) == PcOf(s, t)
  {
  }

  /** An access of t starts a call, serves it or answers it. */
  lemma OwnStep(s: State, t: Tid, c: Choice)
    requires |s.cells| >= 1
    ensures var (a, r) := (PcOf(s, t), Step(s, t, c));
            var b := PcOf(r, t);
            && (a == Idle ==> r.events == s.events && if c.Go? then b == Idle else Serves(b, c))
            && (a != Idle && b != Idle ==> r.events == s.events && forall call | Serves(a, call) :: Serves(b, call))
            && (a != Idle && b == Idle ==>
                  && r.events != [] && r.events[..|r.events| - 1] == s.events
                  && r.events[|r.events| - 1].t == t
                  && forall call | Serves(a, call) :: Answers(r.events[|r.events| - 1], call))
  {
  }

  lemma SettledNext(s: State, u: Tid, c: Choice, t: Tid, calls: seq<Choice>)
    requires |s.cells| >= 1 && Settled(PcOf(s, t), calls, Outcomes(s.events, t))
    ensures var r := Step(s, u, c);
            Settled(PcOf(r, t), calls + (if u == t && PcOf(s, t) == Idle && !c.Go? then [c] else []),
                    Outcomes(r.events, t))
  {
    var r := Step(s, u, c);
    StepEvents(s, u, c);
    OwnStep(s, u, c);
    hide Step, Answers, Serves, Outcomes;
    if r.events != s.events {
      OutcomesNext(s.events, r.events[|r.events| - 1], t);
    }
  }

  /** In every run and for every thread: the calls that have returned are answered in
      order, each with an outcome of its kind and a push with its own value, and a thread
      inside an operation is serving its last call. */
  lemma {:induction false} EveryCallAnswered(junk: seq<Ptr>, sched: Schedule, t: Tid)
    requires |junk| >= 2
    ensures var s := Run(Init(junk), sched);
            Settled(PcOf(s, t), Calls(Init(junk), sched, t), Outcomes(s.events, t))
    decreases |sched|
  {
    if sched != [] {
      var (before, (u, c)) := (sched[..|sched| - 1], sched[|sched| - 1]);
      EveryCallAnswered(junk, before, t);
      var s := Run(Init(junk), before);
      SettledNext(s, u, c, t, Calls(Init(junk), before, t));
      hide Step, Settled, Outcomes;
    }
  }
}
