/** What holds of the multi-producer multi-consumer queue under every schedule. */
module MpmcTheorems {
  import opened Bits
  import opened MpmcModel

  // ------------------------------------------------------------------- safety

  /** The counters stay within one turn of each other. */
  lemma WindowAlways(junk: seq<Ptr>, sched: Schedule)
    requires |junk| >= 2
    ensures var s := Run(Init(junk), sched); s.head <= s.tail <= s.head + |junk|
  {
    InitInv(junk);
    RunKeeps(Init(junk), sched);
    WindowBound(Run(Init(junk), sched));
  }

  /** A pull returns what was pushed at its position, no position is returned or
      filled twice, and positions grow along each thread. */
  lemma FifoByPosition(junk: seq<Ptr>, sched: Schedule)
    requires |junk| >= 2
    ensures
      var s := Run(Init(junk), sched);
      && |s.log| == s.tail
      && (forall e | e in s.events && e.Pushed? :: e.pos < s.tail && s.log[e.pos] == Claim(e.t, e.v))
      && (forall e | e in s.events && e.Pulled? :: e.pos < s.head <= s.tail && s.log[e.pos].value == e.v)
      && (forall i, j | 0 <= i < j < |s.events| && s.events[i].Pulled? && s.events[j].Pulled? ::
            && s.events[i].pos != s.events[j].pos
            && (s.events[i].t == s.events[j].t ==> s.events[i].pos < s.events[j].pos))
      && (forall i, j | 0 <= i < j < |s.events| && s.events[i].Pushed? && s.events[j].Pushed? ::
            && s.events[i].pos != s.events[j].pos
            && (s.events[i].t == s.events[j].t ==> s.events[i].pos < s.events[j].pos))
  {
    InitInv(junk);
    RunKeeps(Init(junk), sched);
    var s := Run(Init(junk), sched);
    forall e | e in s.events
      ensures EventOk(s, e) && (e.Pulled? ==> e.pos < s.head)
    {
      var i :| 0 <= i < |s.events| && s.events[i] == e;
    }
    forall i, j | 0 <= i < j < |s.events|
      ensures InOrder(s.events[i], s.events[j])
    {
    }
  }

  /** Items of one producer that reach the same consumer arrive in push order. */
  lemma ProducerOrder(junk: seq<Ptr>, sched: Schedule, i: nat, j: nat, m: nat, n: nat)
    requires |junk| >= 2
    requires
      var ev := Run(Init(junk), sched).events;
      && i < j < |ev| && ev[i].Pushed? && ev[j].Pushed? && ev[i].t == ev[j].t
      && m < |ev| && n < |ev| && ev[m].Pulled? && ev[n].Pulled? && ev[m].t == ev[n].t
      && ev[m].pos == ev[i].pos && ev[n].pos == ev[j].pos
    ensures m < n
  {
    InitInv(junk);
    RunKeeps(Init(junk), sched);
    var ev := Run(Init(junk), sched).events;
    assert InOrder(ev[i], ev[j]);
    assert n < m ==> InOrder(ev[n], ev[m]);
  }

  /** A pull that is about to read finds the item its producer published there. */
  lemma ReadsOnlyPublished(junk: seq<Ptr>, sched: Schedule, t: Tid)
    requires |junk| >= 2 && PcOf(Run(Init(junk), sched), t).PullRead?
    ensures
      var s := Run(Init(junk), sched);
      var pos := PcOf(s, t).pos;
      && pos < s.head <= s.tail == |s.log| && |s.cells| == |junk|
      && s.cells[Slot(s, pos)] == Cell(pos + 1, s.log[pos].value)
  {
    InitInv(junk);
    RunKeeps(Init(junk), sched);
    var s := Run(Init(junk), sched);
    assert PcOk(s, t, s.threads[t]);
    assert CellAt(s, PcOf(s, t).pos);
  }

  /** Between its compare-and-swap and its sequence store a thread has the cell to itself. */
  lemma ExclusiveCells(junk: seq<Ptr>, sched: Schedule, t: Tid, u: Tid)
    requires |junk| >= 2
    requires var s := Run(Init(junk), sched);
             && Owning(PcOf(s, t)) && Owning(PcOf(s, u))
             && Slot(s, PcOf(s, t).pos) == Slot(s, PcOf(s, u).pos)
    ensures t == u
  {
    InitInv(junk);
    RunKeeps(Init(junk), sched);
    var s := Run(Init(junk), sched);
    assert PcOk(s, t, s.threads[t]) && PcOk(s, u, s.threads[u]);
    DifferentCells(s, PcOf(s, t).pos);
  }

  // -------------------------------------------------------- failure, progress

  /** The cell a push at position pos needs is still held by position pos - size. */
  ghost predicate Blocked(s: State, pos: nat)
    requires Window(s)
  {
    pos == s.tail && pos >= |s.cells| && s.phase[pos - |s.cells|] != Released
  }

  /** At its sequence load a push gives up exactly when its position is the tail
      and the previous user of the cell has not released it.  It goes on to the
      compare-and-swap exactly when the cell is free for its position or is being
      written by the thread that claimed that position first. */
  lemma PushFailsIff(s: State, t: Tid, c: Choice)
    requires Inv(s) && PcOf(s, t).PushLoadSeq?
    ensures
      var pc := PcOf(s, t);
      var r := Step(s, t, c);
      && pc.pos <= s.tail
      && (PcOf(r, t) == Idle && r.events == s.events + [PushFailed(t, pc.pos)] <==> Blocked(s, pc.pos))
      && (PcOf(r, t) == PushCas(pc.v, pc.pos) <==>
            (pc.pos == s.tail && !Blocked(s, pc.pos)) || (pc.pos < s.tail && s.phase[pc.pos].Writing?))
      && (PcOf(r, t) == PushLoadTail(pc.v) ==> pc.pos < s.tail)
  {
    var pos := PcOf(s, t).pos;
    assert PcOk(s, t, s.threads[t]);
    if pos < s.tail {
      var p := Latest(s, pos);
      assert CellAt(s, p);
    } else {
      TailCell(s);
    }
  }

  /** The dual for pull: it gives up exactly when its position is the head and
      nothing is published there. */
  lemma PullFailsIff(s: State, t: Tid, c: Choice)
    requires Inv(s) && PcOf(s, t).PullLoadSeq?
    ensures
      var pos := PcOf(s, t).pos;
      var r := Step(s, t, c);
      && pos <= s.head <= s.tail == |s.phase|
      && (PcOf(r, t) == Idle && r.events == s.events + [PullFailed(t, pos)] <==>
            pos == s.head && (s.head == s.tail || s.phase[s.head].Writing?))
      && (PcOf(r, t) == PullCas(pos) <==>
            (pos == s.head < s.tail && s.phase[pos] == Full) || (pos < s.head && s.phase[pos].Reading?))
      && (PcOf(r, t) == PullLoadHead ==> pos < s.head)
  {
    var pos := PcOf(s, t).pos;
    assert PcOk(s, t, s.threads[t]);
    if pos < s.tail {
      var p := Latest(s, pos);
      assert CellAt(s, p);
    } else {
      TailCell(s);
    }
  }

  lemma StepFrame(s: State, t: Tid, c: Choice, u: Tid)
    requires Inv(s)
    ensures s.tail <= Step(s, t, c).tail && s.head <= Step(s, t, c).head
    ensures u != t ==> PcOf(Step(s, t, c), u) == PcOf(s, u)
  {
    hide Inv;
  }

  lemma {:induction false} CountersGrow(s: State, sched: Schedule)
    requires Inv(s)
    ensures s.tail <= Run(s, sched).tail && s.head <= Run(s, sched).head
    decreases |sched|
  {
    if sched != [] {
      var n := |sched| - 1;
      CountersGrow(s, sched[..n]);
      RunKeeps(s, sched[..n]);
      StepFrame(Run(s, sched[..n]), sched[n].0, sched[n].1, 0);
    }
  }

  lemma {:induction false} OthersKeepPc(s: State, t: Tid, sched: Schedule)
    requires Inv(s) && forall i | 0 <= i < |sched| :: sched[i].0 != t
    ensures PcOf(Run(s, sched), t) == PcOf(s, t)
    decreases |sched|
  {
    if sched != [] {
      var n := |sched| - 1;
      OthersKeepPc(s, t, sched[..n]);
      RunKeeps(s, sched[..n]);
      StepFrame(Run(s, sched[..n]), sched[n].0, sched[n].1, t);
    }
  }

  /** The position a thread is trying has been claimed by another. */
  ghost predicate Outrun(s: State, t: Tid) {
    match PcOf(s, t)
    case PushLoadSeq(_, pos) => pos < s.tail
    case PushCas(_, pos) => pos < s.tail
    case PullLoadSeq(pos) => pos < s.head
    case PullCas(pos) => pos < s.head
    case _ => false
  }

  /** The thread tries the position that the counter has now, with the value it has. */
  ghost predicate UpToDate(before: Pc, s: State, t: Tid) {
    match before
    case PushLoadSeq(v, pos) => PcOf(s, t) == PushLoadSeq(v, s.tail) && s.tail > pos
    case PushCas(v, pos) => PcOf(s, t) == PushLoadSeq(v, s.tail) && s.tail > pos
    case PullLoadSeq(pos) => PcOf(s, t) == PullLoadSeq(s.head) && s.head > pos
    case PullCas(pos) => PcOf(s, t) == PullLoadSeq(s.head) && s.head > pos
    case _ => false
  }

  /** No retry stands still: a thread whose position was claimed by another gets, by one
      access if it is at its compare-and-swap and by two if it is at its sequence load,
      to the value that the counter has at that moment; whatever the other threads do
      between the two, and whether or not a compare-and-swap fails spuriously. */
  lemma RetryAdvances(s: State, t: Tid, c: Choice, others: Schedule, d: Choice)
    requires Inv(s) && Outrun(s, t)
    requires forall i | 0 <= i < |others| :: others[i].0 != t
    ensures var (pc, r) := (PcOf(s, t), Step(s, t, c));
            if pc.PushCas? || pc.PullCas? then UpToDate(pc, r, t)
            else UpToDate(pc, Step(Run(r, others), t, d), t)
  {
    assert PcOk(s, t, s.threads[t]);
    var r := Step(s, t, c);
    StepKeeps(s, t, c);
    OthersKeepPc(r, t, others);
    CountersGrow(r, others);
    hide Run;
    if PcOf(s, t).PushLoadSeq? {
      PushFailsIff(s, t, c);
      PushNotFree(s, t, c);
    } else if PcOf(s, t).PullLoadSeq? {
      PullFailsIff(s, t, c);
      PullNotFree(s, t, c);
    }
    hide Inv;
  }

  lemma PushNotFree(s: State, t: Tid, c: Choice)
    requires Inv(s) && PcOf(s, t).PushLoadSeq? && PcOf(s, t).pos < s.tail
    ensures var (pc, r) := (PcOf(s, t), Step(s, t, c));
            && (PcOf(r, t) == PushLoadTail(pc.v) || PcOf(r, t) == PushCas(pc.v, pc.pos)) && r.tail == s.tail
  {
    var p := Latest(s, PcOf(s, t).pos);
    assert CellAt(s, p);
  }

  lemma PullNotFree(s: State, t: Tid, c: Choice)
    requires Inv(s) && PcOf(s, t).PullLoadSeq? && PcOf(s, t).pos < s.head
    ensures var (pc, r) := (PcOf(s, t), Step(s, t, c));
            && (PcOf(r, t) == PullLoadHead || PcOf(r, t) == PullCas(pc.pos)) && r.head == s.head
  {
    var p := Latest(s, PcOf(s, t).pos);
    assert CellAt(s, p);
  }

  /** A thread whose position nobody has claimed yet takes it by its compare-and-swap
      unless that fails spuriously; then it tries the same position again. */
  lemma CurrentClaims(s: State, t: Tid, spurious: bool)
    requires Inv(s) && (PcOf(s, t).PushCas? || PcOf(s, t).PullCas?) && !Outrun(s, t)
    ensures var (pc, r) := (PcOf(s, t), Step(s, t, Go(spurious)));
            if pc.PushCas? then
              pc.pos == s.tail && PcOf(r, t) == if spurious then PushLoadSeq(pc.v, s.tail) else PushWrite(pc.v, s.tail)
            else
              pc.pos == s.head && PcOf(r, t) == if spurious then PullLoadSeq(s.head) else PullRead(s.head)
  {
    assert PcOk(s, t, s.threads[t]);
  }

  /** A thread that has claimed a position finishes by two more accesses, whatever the
      other threads do in between: it returns the item of its position. */
  lemma {:induction false} OwnersFinish(s: State, t: Tid, c: Choice, others: Schedule, d: Choice)
    requires Inv(s) && (PcOf(s, t).PushWrite? || PcOf(s, t).PullRead?)
    requires forall i | 0 <= i < |others| :: others[i].0 != t
    ensures var (pc, q) := (PcOf(s, t), Run(Step(s, t, c), others));
            var r := Step(q, t, d);
            && pc.pos < s.tail == |s.log| && PcOf(r, t) == Idle
            && (var v := s.log[pc.pos].value;
                r.events == q.events + [if pc.PushWrite? then Pushed(t, pc.pos, v) else Pulled(t, pc.pos, v)])
            && (pc.PushWrite? ==> s.log[pc.pos].value == pc.v && r.cells[Slot(r, pc.pos)] == Cell(pc.pos + 1, pc.v))
            && (pc.PullRead? ==> r.cells[Slot(r, pc.pos)].sequence == pc.pos + |r.cells|)
  {
    assert PcOk(s, t, s.threads[t]);
    var r := Step(s, t, c);
    StepKeeps(s, t, c);
    OthersKeepPc(r, t, others);
    RunKeeps(r, others);
    if PcOf(s, t).PullRead? {
      assert CellAt(s, PcOf(s, t).pos);
    }
    var q := Run(r, others);
    assert PcOk(q, t, q.threads[t]);
    hide Run, Inv;
  }

  // ------------------------------------------------------------ one consumer

  ghost predicate IsPull(pc: Pc) {
    pc.PullLoadHead? || pc.PullLoadSeq? || pc.PullCas? || pc.PullRead? || pc.PullRelease?
  }

  ghost predicate InCell(s: State, c: Tid) {
    PcOf(s, c).PullRead? || PcOf(s, c).PullRelease?
  }

  /** The first position that has not been released. */
  ghost function Floor(s: State, c: Tid): nat {
    if InCell(s, c) && s.head > 0 then s.head - 1 else s.head
  }

  function Values(log: seq<Claim>): seq<Ptr> {
    seq(|log|, i requires 0 <= i < |log| => log[i].value)
  }

  /** The values returned by pulls, in the order of return. */
  function Received(events: seq<Event>): seq<Ptr> {
    if events == [] then []
    else
      var e := events[|events| - 1];
      Received(events[..|events| - 1]) + (if e.Pulled? then [e.v] else [])
  }

  /** Thread c is the only one that pulls. */
  ghost predicate OnlyPuller(s: State, c: Tid) {
    && (forall t | t in s.threads && t != c :: !IsPull(s.threads[t]))
    && (InCell(s, c) ==> PcOf(s, c).pos + 1 == s.head)
  }

  /** ... and has received exactly the claimed values below the floor, in order. */
  ghost predicate SoleConsumer(s: State, c: Tid) {
    && Inv(s)
    && OnlyPuller(s, c)
    && Received(s.events) == Values(s.log[..Floor(s, c)])
  }

  lemma ReceivedSnoc(events: seq<Event>, e: Event)
    ensures Received(events + [e]) == Received(events) + (if e.Pulled? then [e.v] else [])
  {
    assert (events + [e])[..|events|] == events;
  }

  lemma SoleStep(s: State, c: Tid, t: Tid, choice: Choice)
    requires SoleConsumer(s, c) && (choice.StartPull? ==> t == c)
    ensures SoleConsumer(Step(s, t, choice), c)
  {
    StepKeeps(s, t, choice);
    OnlyPullerStep(s, c, t, choice);
    if PcOf(s, t).PullRelease? {
      SoleRelease(s, c);
    } else {
      StepPrefix(s, t, choice);
      FloorStands(s, c, t, choice);
      hide Step, Inv;
      var n := Floor(s, c);
      assert Step(s, t, choice).log[..n] == s.log[..n];
    }
  }

  lemma OnlyPullerStep(s: State, c: Tid, t: Tid, choice: Choice)
    requires Inv(s) && OnlyPuller(s, c) && (choice.StartPull? ==> t == c)
    ensures OnlyPuller(Step(s, t, choice), c)
  {
    if t in s.threads {
      assert PcOk(s, t, s.threads[t]);
    }
  }

  lemma StepPrefix(s: State, t: Tid, choice: Choice)
    requires Inv(s) && !PcOf(s, t).PullRelease?
    ensures s.log <= Step(s, t, choice).log
    ensures Received(Step(s, t, choice).events) == Received(s.events)
  {
    var r := Step(s, t, choice);
    if |r.events| > |s.events| {
      ReceivedSnoc(s.events, r.events[|s.events|]);
      assert r.events == s.events + [r.events[|s.events|]];
    }
  }

  lemma FloorStands(s: State, c: Tid, t: Tid, choice: Choice)
    requires Inv(s) && OnlyPuller(s, c) && !PcOf(s, t).PullRelease?
    ensures Floor(Step(s, t, choice), c) == Floor(s, c) <= s.tail
  {
    if t in s.threads {
      assert PcOk(s, t, s.threads[t]);
    }
  }

  lemma SoleRelease(s: State, c: Tid)
    requires SoleConsumer(s, c) && PcOf(s, c).PullRelease?
    ensures var pc := PcOf(s, c);
            SoleConsumer(Release(s, c, pc.pos, pc.got), c)
  {
    var (pos, got) := (PcOf(s, c).pos, PcOf(s, c).got);
    assert PcOk(s, c, s.threads[c]);
    ReleaseKeeps(s, c, pos, got);
    ReceivedSnoc(s.events, Pulled(c, pos, got));
    assert Values(s.log[..pos + 1]) == Values(s.log[..pos]) + [got];
  }

  lemma {:induction false} SoleRun(s: State, c: Tid, sched: Schedule)
    requires SoleConsumer(s, c) && forall i | 0 <= i < |sched| && sched[i].1.StartPull? :: sched[i].0 == c
    ensures SoleConsumer(Run(s, sched), c)
    decreases |sched|
  {
    if sched != [] {
      var n := |sched| - 1;
      SoleRun(s, c, sched[..n]);
      SoleStep(Run(s, sched[..n]), c, sched[n].0, sched[n].1);
    }
  }

  /** With one consumer and any number of producers, what has been received is at
      every moment a prefix of what was claimed: first in, first out. */
  lemma {:induction false} FifoForOneConsumer(junk: seq<Ptr>, sched: Schedule, c: Tid)
    requires |junk| >= 2
    requires forall i | 0 <= i < |sched| && sched[i].1.StartPull? :: sched[i].0 == c
    ensures var s := Run(Init(junk), sched); Received(s.events) <= Values(s.log)
  {
    InitInv(junk);
    assert SoleConsumer(Init(junk), c);
    SoleRun(Init(junk), c, sched);
    var s := Run(Init(junk), sched);
    var n := Floor(s, c);
    assert Values(s.log) == Values(s.log[..n]) + Values(s.log[n..]);
  }

  /** Below the floor everything is released, so positions are released in order. */
  lemma ReleasedBelowFloor(s: State, c: Tid, p: nat)
    requires SoleConsumer(s, c) && p < s.tail
    ensures p < Floor(s, c) <==> s.phase[p] == Released
  {
    if s.phase[p].Reading? {
      assert Pulling(PcOf(s, s.phase[p].t), p);
    }
    if InCell(s, c) {
      assert PcOk(s, c, s.threads[c]);
    }
  }

  /** While the only consumer reads the two counters, in either order and however
      far apart, nobody moves the head, so the difference is between 0 and size. */
  lemma AvailableInRange(s: State, c: Tid, between: Schedule)
    requires SoleConsumer(s, c) && !IsPull(PcOf(s, c))
    requires forall i | 0 <= i < |between| :: !between[i].1.StartPull? && between[i].0 != c
    ensures var r := Run(s, between);
            && 0 <= s.tail - r.head <= |s.cells|
            && 0 <= r.tail - s.head <= |s.cells|
  {
    SoleRun(s, c, between);
    HeadStands(s, c, between);
    CountersGrow(s, between);
    WindowBound(s);
    WindowBound(Run(s, between));
  }

  lemma HeadStandsStep(s: State, c: Tid, t: Tid, choice: Choice)
    requires |s.cells| >= 1 && OnlyPuller(s, c) && t != c && !choice.StartPull?
    ensures Step(s, t, choice).head == s.head
  {
  }

  lemma {:induction false} HeadStands(s: State, c: Tid, sched: Schedule)
    requires SoleConsumer(s, c)
    requires forall i | 0 <= i < |sched| :: !sched[i].1.StartPull? && sched[i].0 != c
    ensures Run(s, sched).head == s.head && SoleConsumer(Run(s, sched), c)
    decreases |sched|
  {
    if sched != [] {
      var n := |sched| - 1;
      HeadStands(s, c, sched[..n]);
      SoleStep(Run(s, sched[..n]), c, sched[n].0, sched[n].1);
      HeadStandsStep(Run(s, sched[..n]), c, sched[n].0, sched[n].1);
    }
  }

  // ------------------------------------------------------------ nothing lost

  ghost predicate Returned(events: seq<Event>, p: nat) {
    exists i :: 0 <= i < |events| && events[i].Pulled? && events[i].pos == p
  }

  ghost predicate Complete(s: State)
    requires Window(s)
  {
    forall p | 0 <= p < s.head :: s.phase[p].Reading? || Returned(s.events, p)
  }

  lemma CompleteStep(s: State, t: Tid, c: Choice)
    requires Inv(s) && Complete(s) && Inv(Step(s, t, c))
    ensures Complete(Step(s, t, c))
  {
    var r := Step(s, t, c);
    if t in s.threads {
      assert PcOk(s, t, s.threads[t]);
    }
    forall p | 0 <= p < r.head
      ensures r.phase[p].Reading? || Returned(r.events, p)
    {
      if p < s.head && Returned(s.events, p) {
        var i :| 0 <= i < |s.events| && s.events[i].Pulled? && s.events[i].pos == p;
        assert r.events[i] == s.events[i];
      } else if PcOf(s, t).PullRelease? && PcOf(s, t).pos == p {
        assert r.events[|s.events|].Pulled? && r.events[|s.events|].pos == p;
      }
    }
  }

  /** Every position below the head has been returned or is being read right now. */
  lemma {:induction false} NothingLost(junk: seq<Ptr>, sched: Schedule)
    requires |junk| >= 2
    ensures Inv(Run(Init(junk), sched)) && Complete(Run(Init(junk), sched))
    decreases |sched|
  {
    InitInv(junk);
    if sched != [] {
      var n := |sched| - 1;
      NothingLost(junk, sched[..n]);
      StepKeeps(Run(Init(junk), sched[..n]), sched[n].0, sched[n].1);
      CompleteStep(Run(Init(junk), sched[..n]), sched[n].0, sched[n].1);
    }
  }

  // ------------------------------------------------------- without an overlap

  /** No thread other than t is inside an operation, and t holds no cell. */
  ghost predicate Alone(s: State, t: Tid) {
    && Inv(s)
    && !Owning(PcOf(s, t))
    && forall u | u in s.threads && u != t :: s.threads[u] == Idle
  }

  /** No operation is in progress. */
  ghost predicate Quiet(s: State) {
    Inv(s) && forall t | t in s.threads :: s.threads[t] == Idle
  }

  /** The items waiting in the queue, oldest first. */
  ghost function Contents(s: State): seq<Ptr> {
    if s.head <= |s.log| then Values(s.log[s.head..]) else []
  }

  lemma AlonePhases(s: State, t: Tid, p: nat)
    requires Alone(s, t) && p < s.tail
    ensures s.phase[p] == if p < s.head then Released else Full
  {
    assert s.phase[p].Writing? ==> Pushing(PcOf(s, s.phase[p].t), p);
    assert s.phase[p].Reading? ==> Pulling(PcOf(s, s.phase[p].t), p);
  }

  /** Without an overlap a push gives up exactly when the queue is full ... */
  lemma AlonePushFailsIff(s: State, t: Tid, c: Choice)
    requires Alone(s, t) && PcOf(s, t).PushLoadSeq? && PcOf(s, t).pos == s.tail
    ensures Step(s, t, c) ==
            if |Contents(s)| == |s.cells|
            then Goto(s, t, Idle).(events := s.events + [PushFailed(t, s.tail)])
            else Goto(s, t, PushCas(PcOf(s, t).v, s.tail))
  {
    PushFailsIff(s, t, c);
    WindowBound(s);
    if s.tail >= |s.cells| {
      AlonePhases(s, t, s.tail - |s.cells|);
    }
  }

  /** ... and a pull exactly when it is empty. */
  lemma AlonePullFailsIff(s: State, t: Tid, c: Choice)
    requires Alone(s, t) && PcOf(s, t).PullLoadSeq? && PcOf(s, t).pos == s.head
    ensures Step(s, t, c) ==
            if |Contents(s)| == 0
            then Goto(s, t, Idle).(events := s.events + [PullFailed(t, s.head)])
            else Goto(s, t, PullCas(s.head))
  {
    PullFailsIff(s, t, c);
    if s.head < s.tail {
      AlonePhases(s, t, s.head);
    }
  }

  lemma RunSnoc(s: State, sched: Schedule, t: Tid, c: Choice)
    requires |s.cells| >= 1
    ensures Run(s, sched + [(t, c)]) == Step(Run(s, sched), t, c)
  {
    assert (sched + [(t, c)])[..|sched|] == sched;
  }

  /** Before the loop: the counter is read and the position is current. */
  lemma AloneStart(s: State, t: Tid, c: Choice)
    requires Quiet(s) && !c.Go?
    ensures var r := Step(Step(s, t, c), t, Go(false));
            && Alone(r, t)
            && r == Goto(s, t, if c.StartPush? then PushLoadSeq(c.v, s.tail) else PullLoadSeq(s.head))
  {
    StepKeeps(s, t, c);
    StepKeeps(Step(s, t, c), t, Go(false));
  }

  /** A spurious failure of the compare-and-swap leads back to the same point. */
  lemma AloneSpurious(s: State, t: Tid)
    requires Alone(s, t)
    requires (PcOf(s, t).PushLoadSeq? && PcOf(s, t).pos == s.tail && |Contents(s)| < |s.cells|)
          || (PcOf(s, t).PullLoadSeq? && PcOf(s, t).pos == s.head && |Contents(s)| > 0)
    ensures Step(Step(s, t, Go(false)), t, Go(true)) == s
  {
    if PcOf(s, t).PushLoadSeq? {
      AlonePushFailsIff(s, t, Go(false));
    } else {
      AlonePullFailsIff(s, t, Go(false));
    }
    assert s.threads == s.threads[t := PcOf(s, t)];
  }

  /** Thread t takes four accesses in a row. */
  function FourSteps(s: State, t: Tid): State
    requires |s.cells| >= 1
  {
    Step(Step(Step(Step(s, t, Go(false)), t, Go(false)), t, Go(false)), t, Go(false))
  }

  lemma FourKeep(s: State, t: Tid)
    requires Inv(s)
    ensures Inv(FourSteps(s, t))
  {
    StepKeeps(s, t, Go(false));
    StepKeeps(Step(s, t, Go(false)), t, Go(false));
    StepKeeps(Step(Step(s, t, Go(false)), t, Go(false)), t, Go(false));
    StepKeeps(Step(Step(Step(s, t, Go(false)), t, Go(false)), t, Go(false)), t, Go(false));
  }

  lemma PushSteps(s: State, t: Tid, v: Ptr)
    requires |s.cells| >= 1 && |s.phase| == s.tail && PcOf(s, t) == PushCas(v, s.tail)
    ensures Step(Step(Step(s, t, Go(false)), t, Go(false)), t, Go(false)) == State(
              s.cells[Slot(s, s.tail) := Cell(s.tail + 1, v)], s.tail + 1, s.head, s.threads[t := Idle],
              s.log + [Claim(t, v)], s.phase + [Full], s.events + [Pushed(t, s.tail, v)])
  {
    var s1 := ClaimPush(s, t, v, s.tail);
    assert Step(s, t, Go(false)) == s1;
    var s2 := Step(s1, t, Go(false));
    assert PcOf(s2, t) == PushPublish(v, s.tail);
    assert s1.phase[s.tail := Full] == s.phase + [Full];
    assert s.threads[t := Idle] == s2.threads[t := Idle];
  }

  lemma PullSteps(s: State, t: Tid)
    requires |s.cells| >= 1 && |s.phase| == s.tail && s.head < s.tail && PcOf(s, t) == PullCas(s.head)
    ensures var v := s.cells[Slot(s, s.head)].data;
            Step(Step(Step(s, t, Go(false)), t, Go(false)), t, Go(false)) == State(
              s.cells[Slot(s, s.head) := Cell(s.head + |s.cells|, v)], s.tail, s.head + 1, s.threads[t := Idle],
              s.log, s.phase[s.head := Released], s.events + [Pulled(t, s.head, v)])
  {
    var s1 := ClaimPull(s, t, s.head);
    assert Step(s, t, Go(false)) == s1;
    var s2 := Step(s1, t, Go(false));
    assert PcOf(s2, t) == PullRelease(s.head, s.cells[Slot(s, s.head)].data);
    assert s2.phase[s.head := Released] == s.phase[s.head := Released];
    assert s.threads[t := Idle] == s2.threads[t := Idle];
  }

  /** From its last sequence load a push that finds room takes four more accesses. */
  lemma AlonePushCommits(s: State, t: Tid, v: Ptr)
    requires Alone(s, t) && PcOf(s, t) == PushLoadSeq(v, s.tail) && |Contents(s)| < |s.cells|
    ensures var r := FourSteps(s, t);
            && Quiet(r)
            && r.cells == s.cells[Slot(s, s.tail) := Cell(s.tail + 1, v)]
            && r.tail == s.tail + 1 && r.head == s.head
            && Contents(r) == Contents(s) + [v]
            && r.events == s.events + [Pushed(t, s.tail, v)]
  {
    AlonePushFailsIff(s, t, Go(false));
    FourKeep(s, t);
    PushSteps(Step(s, t, Go(false)), t, v);
  }

  lemma AlonePullCommits(s: State, t: Tid)
    requires Alone(s, t) && PcOf(s, t) == PullLoadSeq(s.head) && |Contents(s)| > 0
    ensures var r := FourSteps(s, t);
            var v := s.cells[Slot(s, s.head)].data;
            && Quiet(r)
            && r.cells == s.cells[Slot(s, s.head) := Cell(s.head + |s.cells|, v)]
            && r.tail == s.tail && r.head == s.head + 1
            && Contents(s) == [v] + Contents(r)
            && r.events == s.events + [Pulled(t, s.head, v)]
  {
    AlonePullFailsIff(s, t, Go(false));
    AlonePhases(s, t, s.head);
    assert CellAt(s, s.head);
    FourKeep(s, t);
    PullSteps(Step(s, t, Go(false)), t);
  }

  lemma {:induction false} RunAppend(s: State, a: Schedule, b: Schedule)
    requires |s.cells| >= 1
    ensures Run(s, a + b) == Run(Run(s, a), b)
    decreases |b|
  {
    if b == [] {
      assert a + b == a;
    } else {
      var n := |b| - 1;
      RunAppend(s, a, b[..n]);
      assert (a + b)[..|a| + n] == a + b[..n];
    }
  }

  /** k spurious failures of thread t. */
  function Spurious(t: Tid, k: nat): Schedule {
    if k == 0 then [] else Spurious(t, k - 1) + [(t, Go(false)), (t, Go(true))]
  }

  /** The accesses of one operation run alone: start, counter, the k spurious
      rounds if there is anything to compete for, then the last four or the one
      that fails. */
  function Solo(t: Tid, start: Choice, k: nat, ok: bool): Schedule {
    [(t, start), (t, Go(false))]
    + (if ok then Spurious(t, k) + seq(4, _ => (t, Go(false))) else [(t, Go(false))])
  }

  ghost predicate By(sched: Schedule, t: Tid) {
    forall i | 0 <= i < |sched| :: sched[i].0 == t
  }

  lemma SoloBy(t: Tid, start: Choice, k: nat, ok: bool)
    ensures By(Solo(t, start, k, ok), t)
  {
    SpuriousBy(t, k);
  }

  lemma {:induction false} SpuriousBy(t: Tid, k: nat)
    ensures By(Spurious(t, k), t)
  {
    if k > 0 {
      SpuriousBy(t, k - 1);
    }
  }

  lemma {:induction false} SpuriousStands(s: State, t: Tid, k: nat)
    requires |s.cells| >= 1 && Step(Step(s, t, Go(false)), t, Go(true)) == s
    ensures Run(s, Spurious(t, k)) == s
  {
    if k > 0 {
      SpuriousStands(s, t, k - 1);
      RunSnoc(s, Spurious(t, k - 1), t, Go(false));
      RunSnoc(s, Spurious(t, k - 1) + [(t, Go(false))], t, Go(true));
      assert Spurious(t, k) == Spurious(t, k - 1) + [(t, Go(false))] + [(t, Go(true))];
    }
  }

  lemma RunFour(s: State, t: Tid)
    requires |s.cells| >= 1
    ensures Run(s, seq(4, _ => (t, Go(false)))) == FourSteps(s, t)
  {
    var c := (t, Go(false));
    assert seq(4, _ => c) == [] + [c] + [c] + [c] + [c];
    RunSnoc(s, [], t, Go(false));
    RunSnoc(s, [] + [c], t, Go(false));
    RunSnoc(s, [] + [c] + [c], t, Go(false));
    RunSnoc(s, [] + [c] + [c] + [c], t, Go(false));
  }

  lemma RunTwo(s: State, t: Tid, c: Choice, d: Choice)
    requires |s.cells| >= 1
    ensures Run(s, [(t, c), (t, d)]) == Step(Step(s, t, c), t, d)
  {
    RunSnoc(s, [], t, c);
    RunSnoc(s, [] + [(t, c)], t, d);
    assert [(t, c), (t, d)] == [] + [(t, c)] + [(t, d)];
  }

  lemma RunOne(s: State, t: Tid, c: Choice)
    requires |s.cells| >= 1
    ensures Run(s, [(t, c)]) == Step(s, t, c)
  {
    RunSnoc(s, [], t, c);
    assert [(t, c)] == [] + [(t, c)];
  }

  /** How a run of Solo unfolds from a state whose first two accesses lead to s. */
  lemma {:induction false} RunSolo(s0: State, s: State, t: Tid, start: Choice, k: nat, ok: bool)
    requires |s0.cells| >= 1 && s == Step(Step(s0, t, start), t, Go(false))
    requires ok ==> Step(Step(s, t, Go(false)), t, Go(true)) == s
    ensures Run(s0, Solo(t, start, k, ok)) == if ok then FourSteps(s, t) else Step(s, t, Go(false))
  {
    var first := [(t, start), (t, Go(false))];
    RunTwo(s0, t, start, Go(false));
    if ok {
      RunAppend(s0, first, Spurious(t, k) + seq(4, _ => (t, Go(false))));
      RunAppend(s, Spurious(t, k), seq(4, _ => (t, Go(false))));
      SpuriousStands(s, t, k);
      RunFour(s, t);
    } else {
      RunAppend(s0, first, [(t, Go(false))]);
      RunOne(s, t, Go(false));
    }
  }

  /** r is s after one finished operation that left head, tail, cells and events so. */
  ghost predicate Became(s: State, r: State, head: nat, tail: nat, cells: seq<Cell>, e: Event) {
    && Quiet(r) && r.head == head && r.tail == tail && r.cells == cells && r.events == s.events + [e]
  }

  lemma {:induction false} SoloPushRoom(s: State, t: Tid, v: Ptr, k: nat)
    requires Quiet(s) && |Contents(s)| < |s.cells|
    ensures var r := Run(s, Solo(t, StartPush(v), k, true));
            && Became(s, r, s.head, s.tail + 1, s.cells[Slot(s, s.tail) := Cell(s.tail + 1, v)], Pushed(t, s.tail, v))
            && Contents(r) == Contents(s) + [v]
  {
    hide Step, Run;
    AloneStart(s, t, StartPush(v));
    var s1 := Goto(s, t, PushLoadSeq(v, s.tail));
    AloneSpurious(s1, t);
    AlonePushCommits(s1, t, v);
    RunSolo(s, s1, t, StartPush(v), k, true);
  }

  lemma SoloPushFull(s: State, t: Tid, v: Ptr, k: nat)
    requires Quiet(s) && |Contents(s)| >= |s.cells|
    ensures var r := Run(s, Solo(t, StartPush(v), k, false));
            Became(s, r, s.head, s.tail, s.cells, PushFailed(t, s.tail)) && Contents(r) == Contents(s)
  {
    hide Step, Run;
    WindowBound(s);
    AloneStart(s, t, StartPush(v));
    var s1 := Goto(s, t, PushLoadSeq(v, s.tail));
    AlonePushFailsIff(s1, t, Go(false));
    StepKeeps(s1, t, Go(false));
    RunSolo(s, s1, t, StartPush(v), k, false);
  }

  lemma {:induction false} SoloPullItem(s: State, t: Tid, k: nat)
    requires Quiet(s) && |Contents(s)| > 0
    ensures var r := Run(s, Solo(t, StartPull, k, true));
            var v := s.cells[Slot(s, s.head)].data;
            && Became(s, r, s.head + 1, s.tail,
                      s.cells[Slot(s, s.head) := Cell(s.head + |s.cells|, v)], Pulled(t, s.head, v))
            && Contents(s) == [v] + Contents(r)
  {
    hide Step, Run;
    AloneStart(s, t, StartPull);
    var s1 := Goto(s, t, PullLoadSeq(s.head));
    AloneSpurious(s1, t);
    AlonePullCommits(s1, t);
    RunSolo(s, s1, t, StartPull, k, true);
  }

  lemma SoloPullEmpty(s: State, t: Tid, k: nat)
    requires Quiet(s) && |Contents(s)| == 0
    ensures var r := Run(s, Solo(t, StartPull, k, false));
            Became(s, r, s.head, s.tail, s.cells, PullFailed(t, s.head)) && Contents(r) == Contents(s)
  {
    hide Step, Run;
    AloneStart(s, t, StartPull);
    var s1 := Goto(s, t, PullLoadSeq(s.head));
    AlonePullFailsIff(s1, t, Go(false));
    StepKeeps(s1, t, Go(false));
    RunSolo(s, s1, t, StartPull, k, false);
  }

  /** What the first load of a cell sees when nothing is in progress. */
  lemma QuietCells(s: State)
    requires Quiet(s)
    ensures var q := s.cells[Slot(s, s.tail)].sequence;
            if |Contents(s)| < |s.cells| then q == s.tail else q < s.tail
    ensures var q := s.cells[Slot(s, s.head)].sequence;
            if |Contents(s)| > 0 then q == s.head + 1 else q < s.head + 1
    ensures |Contents(s)| == s.tail - s.head <= |s.cells|
  {
    WindowBound(s);
    TailCell(s);
    if s.tail >= |s.cells| {
      AlonePhases(s, 0, s.tail - |s.cells|);
    }
    if s.head < s.tail {
      AlonePhases(s, 0, s.head);
      assert CellAt(s, s.head);
    }
  }

  /** Reached by some schedule, with every operation finished. */
  ghost predicate AtRest(s: State) {
    && (exists junk: seq<Ptr>, sched: Schedule :: |junk| >= 2 && s == Run(Init(junk), sched))
    && forall t | t in s.threads :: s.threads[t] == Idle
  }

  lemma AtRestIsQuiet(s: State)
    requires AtRest(s)
    ensures Quiet(s)
  {
    var junk: seq<Ptr>, sched: Schedule :| |junk| >= 2 && s == Run(Init(junk), sched);
    InitInv(junk);
    RunKeeps(Init(junk), sched);
  }

  lemma StaysAtRest(s: State, sched: Schedule)
    requires AtRest(s) && |s.cells| >= 1 && Quiet(Run(s, sched))
    ensures AtRest(Run(s, sched))
  {
    var junk: seq<Ptr>, first: Schedule :| |junk| >= 2 && s == Run(Init(junk), first);
    RunAppend(Init(junk), first, sched);
  }

  /** What the loops of push and pull meet when nothing else is in progress. */
  lemma RestCells(s: State)
    requires AtRest(s)
    ensures |s.cells| >= 2 && |Contents(s)| == s.tail - s.head <= |s.cells|
    ensures var q := s.cells[Slot(s, s.tail)].sequence;
            if |Contents(s)| < |s.cells| then q == s.tail else q < s.tail
    ensures var cell := s.cells[Slot(s, s.head)];
            if |Contents(s)| > 0 then cell == Cell(s.head + 1, Contents(s)[0]) else cell.sequence < s.head + 1
  {
    AtRestIsQuiet(s);
    QuietCells(s);
    if s.head < s.tail {
      AlonePhases(s, 0, s.head);
      assert CellAt(s, s.head);
    }
  }

  /** r is the state at rest after one finished operation. */
  ghost predicate Done(s: State, r: State, head: nat, tail: nat, cells: seq<Cell>, e: Event) {
    && AtRest(r) && r.head == head && r.tail == tail && r.cells == cells && r.events == s.events + [e]
  }

  /** A push run alone, whatever the number of spurious failures: it fails exactly
      when the queue is full and otherwise appends its value. */
  lemma SoloPush(s: State, t: Tid, v: Ptr, k: nat)
    requires AtRest(s) && |s.cells| >= 2
    ensures
      var ok := |Contents(s)| < |s.cells|;
      var r := Run(s, Solo(t, StartPush(v), k, ok));
      && (ok ==> Done(s, r, s.head, s.tail + 1, s.cells[Slot(s, s.tail) := Cell(s.tail + 1, v)], Pushed(t, s.tail, v)))
      && (!ok ==> Done(s, r, s.head, s.tail, s.cells, PushFailed(t, s.tail)))
      && Contents(r) == Contents(s) + (if ok then [v] else [])
  {
    hide Step, Run, AtRest;
    AtRestIsQuiet(s);
    if |Contents(s)| < |s.cells| {
      SoloPushRoom(s, t, v, k);
      StaysAtRest(s, Solo(t, StartPush(v), k, true));
    } else {
      SoloPushFull(s, t, v, k);
      StaysAtRest(s, Solo(t, StartPush(v), k, false));
    }
  }

  /** A pull run alone fails exactly when the queue is empty and otherwise returns
      the oldest value. */
  lemma SoloPull(s: State, t: Tid, k: nat)
    requires AtRest(s) && |s.cells| >= 2
    ensures
      var ok := |Contents(s)| > 0;
      var v := s.cells[Slot(s, s.head)].data;
      var r := Run(s, Solo(t, StartPull, k, ok));
      && (ok ==> Done(s, r, s.head + 1, s.tail,
                      s.cells[Slot(s, s.head) := Cell(s.head + |s.cells|, v)], Pulled(t, s.head, v)))
      && (!ok ==> Done(s, r, s.head, s.tail, s.cells, PullFailed(t, s.head)))
      && Contents(s) == (if ok then [v] else []) + Contents(r)
  {
    hide Step, Run, AtRest;
    AtRestIsQuiet(s);
    if |Contents(s)| > 0 {
      SoloPullItem(s, t, k);
      StaysAtRest(s, Solo(t, StartPull, k, true));
    } else {
      SoloPullEmpty(s, t, k);
      StaysAtRest(s, Solo(t, StartPull, k, false));
    }
  }

  // --------------------------------------------------------- 64-bit counters

  /** A 64-bit word read as a signed number. */
  function Signed(w: nat): int
    requires w < TWO_64
  {
    if w < TWO_63 then w else w - TWO_64
  }

  /** The wrapped difference of two wrapped counters, read as signed, is the true
      difference as long as that is less than 2^63 in size. */
  lemma SignedDifference(seqNo: nat, pos: nat)
    requires -TWO_63 <= seqNo - pos < TWO_63
    ensures Signed((seqNo % TWO_64 - pos % TWO_64) % TWO_64) == seqNo - pos
  {
    var d := seqNo - pos;
    assert (seqNo % TWO_64 - pos % TWO_64) % TWO_64 == d % TWO_64;
  }
}
