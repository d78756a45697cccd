/** The credit protocol around one data queue.

    A "transit" queue of the same size hands out tokens.  A receiving thread pulls
    a token, pushes its packet into the data queue and thereby gives the token up;
    the one draining thread pulls packets, and gives one token back for each.  Both
    queues are the step system of MpmcModel, so a schedule here interleaves single
    atomic accesses of every thread on both queues. */
module CreditProtocol {
  import opened Bits
  import opened MpmcModel
  import opened MpmcTheorems

  const DRAINER: Tid := 0
  const MAX_BURST_TX: nat := 20

  /** Where a thread is in its own loop: the first four stages belong to receivers,
      the others to the drainer, which carries the packets it has collected. */
  datatype Stage =
    | Ready
    | Taking
    | Holding
    | Placing
    | Collecting(got: seq<Ptr>)
    | Draining(got: seq<Ptr>)
    | Giving(got: seq<Ptr>)
    | Returning(got: seq<Ptr>)

  /** `lost` counts tokens whose push returned 0; no step reads it. */
  datatype World = World(data: State, transit: State, stage: map<Tid, Stage>, lost: nat)

  /** The scheduler's decisions: the packet a receiver has, whether a weak
      compare-and-swap fails spuriously, whether the drainer tries for more. */
  datatype Move = Move(packet: Ptr, spurious: bool, more: bool)

  function StageOf(w: World, t: Tid): Stage {
    if t in w.stage then w.stage[t] else if t == DRAINER then Collecting([]) else Ready
  }

  function At(w: World, t: Tid, st: Stage): World {
    w.(stage := w.stage[t := st])
  }

  predicate Finished(q: State, t: Tid) {
    PcOf(q, t) == Idle
  }

  /** The return value of the operation that just finished. */
  predicate Succeeded(q: State) {
    q.events != [] && (q.events[|q.events| - 1].Pushed? || q.events[|q.events| - 1].Pulled?)
  }

  predicate Sized(w: World) {
    |w.data.cells| >= 2 && |w.transit.cells| >= 2
  }

  /** One access by thread t. */
  function Act(w: World, t: Tid, m: Move): (r: World)
    requires Sized(w)
    ensures Sized(r)
  {
    match StageOf(w, t)
    case Ready => At(w, t, Taking).(transit := Step(w.transit, t, StartPull))
    case Taking =>
      var q := Step(w.transit, t, Go(m.spurious));
      At(w, t, if !Finished(q, t) then Taking else if Succeeded(q) then Holding else Ready).(transit := q)
    case Holding => At(w, t, Placing).(data := Step(w.data, t, StartPush(m.packet)))
    case Placing =>
      var q := Step(w.data, t, Go(m.spurious));
      At(w, t, if Finished(q, t) then Ready else Placing).(
        data := q, lost := if Finished(q, t) && !Succeeded(q) then w.lost + 1 else w.lost)
    case Collecting(got) =>
      if m.more && |got| < MAX_BURST_TX
      then At(w, t, Draining(got)).(data := Step(w.data, t, StartPull))
      else At(w, t, if got == [] then Collecting([]) else Giving(got))
    case Draining(got) =>
      var q := Step(w.data, t, Go(m.spurious));
      At(w, t, if !Finished(q, t) then Draining(got)
               else if Succeeded(q) then Collecting(got + [LastValue(q)]) else Collecting(got)).(data := q)
    case Giving(got) =>
      if got == [] then At(w, t, Collecting([]))
      else At(w, t, Returning(got)).(transit := Step(w.transit, t, StartPush(got[0])))
    case Returning(got) =>
      var q := Step(w.transit, t, Go(m.spurious));
      At(w, t, if !Finished(q, t) || got == [] then Returning(got) else Giving(got[1..])).(
        transit := q, lost := if Finished(q, t) && !Succeeded(q) then w.lost + 1 else w.lost)
  }

  /** The value a pull that just succeeded returned. */
  function LastValue(q: State): Ptr
    requires Succeeded(q)
  {
    q.events[|q.events| - 1].v
  }

  type Moves = seq<(Tid, Move)>

  function Perform(w: World, moves: Moves): (r: World)
    requires Sized(w)
    ensures Sized(r)
    decreases |moves|
  {
    if moves == [] then w
    else Act(Perform(w, moves[..|moves| - 1]), moves[|moves| - 1].0, moves[|moves| - 1].1)
  }

  // ---------------------------------------------------------------- invariant

  ghost predicate IsPush(pc: Pc) {
    pc.PushLoadTail? || pc.PushLoadSeq? || pc.PushCas? || pc.PushWrite? || pc.PushPublish?
  }

  /** A push that has not claimed its position yet. */
  ghost predicate Unclaimed(pc: Pc) {
    pc.PushLoadTail? || pc.PushLoadSeq? || pc.PushCas?
  }

  /** The stage of a thread agrees with what it is doing in the two queues. */
  ghost predicate Fits(w: World, t: Tid) {
    var (d, q) := (PcOf(w.data, t), PcOf(w.transit, t));
    match StageOf(w, t)
    case Ready => t != DRAINER && d == Idle && q == Idle
    case Taking => t != DRAINER && d == Idle && IsPull(q)
    case Holding => t != DRAINER && d == Idle && q == Idle
    case Placing => t != DRAINER && IsPush(d) && q == Idle
    case Collecting(_) => t == DRAINER && d == Idle && q == Idle
    case Draining(_) => t == DRAINER && IsPull(d) && q == Idle
    case Giving(_) => t == DRAINER && d == Idle && q == Idle
    case Returning(got) => t == DRAINER && got != [] && d == Idle && IsPush(q)
  }

  /** A receiver has a token from its claim in the transit queue to its claim in
      the data queue. */
  ghost predicate HasToken(w: World, t: Tid) {
    var (d, q) := (PcOf(w.data, t), PcOf(w.transit, t));
    match StageOf(w, t)
    case Taking => q.PullRead? || q.PullRelease?
    case Holding => true
    case Placing => Unclaimed(d)
    case _ => false
  }

  ghost function Holders(w: World): set<Tid> {
    set t | t in w.stage && HasToken(w, t)
  }

  /** Tokens in the drainer's hands. */
  ghost function Carried(w: World): nat {
    match StageOf(w, DRAINER)
    case Collecting(got) => |got|
    case Draining(got) => |got|
    case Giving(got) => |got|
    case Returning(got) => if |got| > 0 && !Unclaimed(PcOf(w.transit, DRAINER)) then |got| - 1 else |got|
    case _ => 0
  }

  /** Every token, wherever it is. */
  ghost function Credits(w: World): int {
    (w.data.tail - Floor(w.data, DRAINER)) + (w.transit.tail - w.transit.head) + |Holders(w)| + Carried(w) + w.lost
  }

  ghost predicate CreditInv(w: World, credits: nat) {
    && SoleConsumer(w.data, DRAINER) && Inv(w.transit)
    && |w.data.cells| == |w.transit.cells| >= credits
    && (forall t: Tid :: Fits(w, t))
    && Credits(w) == credits
    && (forall e | e in w.data.events :: !e.PushFailed?)
  }

  // ------------------------------------------------- effects of a queue access

  ghost predicate InRead(pc: Pc) { pc.PullRead? || pc.PullRelease? }

  lemma PullEffect(s: State, t: Tid, c: Choice)
    requires Inv(s) && IsPull(PcOf(s, t))
    ensures
      var (a, b, r) := (PcOf(s, t), PcOf(Step(s, t, c), t), Step(s, t, c));
      && r.tail == s.tail && (IsPull(b) || b == Idle)
      && r.head == s.head + (if !InRead(a) && InRead(b) then 1 else 0)
      && (b == Idle ==> (Succeeded(r) <==> InRead(a)) && (InRead(a) <==> a.PullRelease?))
      && (InRead(a) ==> InRead(b) || b == Idle)
      && (forall e | e in r.events && e.PushFailed? :: e in s.events)
  {
    assert PcOk(s, t, PcOf(s, t));
  }

  lemma PushEffect(s: State, t: Tid, c: Choice)
    requires Inv(s) && IsPush(PcOf(s, t))
    ensures
      var (a, b, r) := (PcOf(s, t), PcOf(Step(s, t, c), t), Step(s, t, c));
      && r.head == s.head && (IsPush(b) || b == Idle)
      && r.tail == s.tail + (if Unclaimed(a) && IsPush(b) && !Unclaimed(b) then 1 else 0)
      && (b == Idle ==> (Succeeded(r) <==> !Unclaimed(a)))
      && (!Unclaimed(a) ==> !Unclaimed(b))
      && (b == Idle && Unclaimed(a) ==> a.PushLoadSeq? && Blocked(s, a.pos))
      && (b != Idle || !Unclaimed(a) ==> forall e | e in r.events && e.PushFailed? :: e in s.events)
  {
    assert PcOk(s, t, PcOf(s, t));
    if PcOf(s, t).PushLoadSeq? {
      PushFailsIff(s, t, c);
    }
  }

  lemma StartEffect(s: State, t: Tid, c: Choice)
    requires Inv(s) && PcOf(s, t) == Idle && !c.Go?
    ensures var r := Step(s, t, c);
            && r.head == s.head && r.tail == s.tail && r.events == s.events
            && (if c.StartPush? then Unclaimed(PcOf(r, t)) else IsPull(PcOf(r, t)) && !InRead(PcOf(r, t)))
  {
  }

  // ---------------------------------------------------------------- counting

  /** Only thread t changed between w and r. */
  ghost predicate OnlyMoved(w: World, r: World, t: Tid) {
    forall u: Tid | u != t ::
      && StageOf(r, u) == StageOf(w, u)
      && (u in r.stage <==> u in w.stage)
      && PcOf(r.data, u) == PcOf(w.data, u) && PcOf(r.transit, u) == PcOf(w.transit, u)
  }

  lemma SameToken(w: World, r: World, t: Tid, u: Tid)
    requires OnlyMoved(w, r, t) && u != t
    ensures u in Holders(r) <==> u in Holders(w)
  {
    assert StageOf(r, u) == StageOf(w, u);
  }

  lemma Without(a: set<Tid>, b: set<Tid>, t: Tid)
    requires forall u: Tid | u != t :: u in a <==> u in b
    ensures |a| + Bit(t in b) == |b| + Bit(t in a)
  {
    assert a - {t} == b - {t};
    assert |a - {t}| + Bit(t in a) == |a| && |b - {t}| + Bit(t in b) == |b|;
  }

  lemma HoldersMove(w: World, r: World, t: Tid)
    requires OnlyMoved(w, r, t) && t in r.stage
    ensures |Holders(r)| + Bit(HasToken(w, t)) == |Holders(w)| + Bit(HasToken(r, t))
  {
    var (a, b) := (Holders(w), Holders(r));
    forall u: Tid | u != t
      ensures u in a <==> u in b
    {
      SameToken(w, r, t, u);
    }
    Without(a, b, t);
    assert t in b <==> HasToken(r, t);
    assert t in a <==> HasToken(w, t);
  }

  /** The choice with which an access enters the data queue, or the transit queue. */
  ghost function DataChoice(w: World, t: Tid, m: Move): Choice {
    match StageOf(w, t)
    case Holding => StartPush(m.packet)
    case Collecting(_) => StartPull
    case _ => Go(m.spurious)
  }

  ghost function TransitChoice(w: World, t: Tid, m: Move): Choice {
    match StageOf(w, t)
    case Ready => StartPull
    case Giving(got) => if got == [] then StartPull else StartPush(got[0])
    case _ => Go(m.spurious)
  }

  lemma ActIsStep(w: World, t: Tid, m: Move)
    requires Sized(w)
    ensures var r := Act(w, t, m);
            && (r.data == w.data || r.data == Step(w.data, t, DataChoice(w, t, m)))
            && (r.transit == w.transit || r.transit == Step(w.transit, t, TransitChoice(w, t, m)))
            && t in r.stage && r.stage == w.stage[t := r.stage[t]]
  {
  }

  lemma MovedByStep(w: World, t: Tid, m: Move)
    requires Sized(w) && Inv(w.data) && Inv(w.transit)
    ensures OnlyMoved(w, Act(w, t, m), t) && t in Act(w, t, m).stage
  {
    var r := Act(w, t, m);
    ActIsStep(w, t, m);
    forall u: Tid | u != t
      ensures StageOf(r, u) == StageOf(w, u) && (u in r.stage <==> u in w.stage)
      ensures PcOf(r.data, u) == PcOf(w.data, u) && PcOf(r.transit, u) == PcOf(w.transit, u)
    {
      StepFrame(w.data, t, DataChoice(w, t, m), u);
      StepFrame(w.transit, t, TransitChoice(w, t, m), u);
    }
  }

  /** The heart of the protocol: the holder of a token always finds room. */
  lemma HolderFindsRoom(w: World, credits: nat, t: Tid)
    requires CreditInv(w, credits) && HasToken(w, t) && t in w.stage && Sized(w)
    requires PcOf(w.data, t).PushLoadSeq?
    ensures !Blocked(w.data, PcOf(w.data, t).pos)
  {
    var s := w.data;
    assert t in Holders(w);
    assert |Holders(w)| >= 1 by {
      assert Holders(w) != {};
    }
    WindowBound(w.transit);
    if s.tail >= |s.cells| {
      var p := s.tail - |s.cells|;
      assert p < Floor(s, DRAINER);
      ReleasedBelowFloor(s, DRAINER, p);
    }
  }

  // ------------------------------------------------------------ preservation

  /** Threads that did not move still fit. */
  lemma OthersFit(w: World, r: World, t: Tid)
    requires OnlyMoved(w, r, t) && (forall u: Tid :: Fits(w, u)) && Fits(r, t)
    ensures forall u: Tid :: Fits(r, u)
  {
    forall u: Tid
      ensures Fits(r, u)
    {
      if u != t {
        assert Fits(w, u) && StageOf(r, u) == StageOf(w, u);
      }
    }
  }

  /** One access of the data queue: floor and tail. */
  lemma DataCounts(s: State, t: Tid, c: Choice)
    requires SoleConsumer(s, DRAINER) && (IsPull(PcOf(s, t)) || c.StartPull? ==> t == DRAINER)
    requires !(IsPull(PcOf(s, t)) && c.StartPull?)
    ensures SoleConsumer(Step(s, t, c), DRAINER)
    ensures Floor(Step(s, t, c), DRAINER) == Floor(s, DRAINER) + Bit(PcOf(s, t).PullRelease?)
  {
    SoleStep(s, DRAINER, t, c);
    if !PcOf(s, t).PullRelease? {
      FloorStands(s, DRAINER, t, c);
    } else {
      assert PcOk(s, t, PcOf(s, t));
    }
  }

  /** What one thread must show for its own access. */
  lemma Assemble(w: World, r: World, credits: nat, t: Tid)
    requires CreditInv(w, credits) && OnlyMoved(w, r, t) && t in r.stage
    requires SoleConsumer(r.data, DRAINER) && Inv(r.transit) && Fits(r, t)
    requires |r.data.cells| == |w.data.cells| && |r.transit.cells| == |w.transit.cells|
    requires Credits(r) - |Holders(r)| + Bit(HasToken(r, t)) == Credits(w) - |Holders(w)| + Bit(HasToken(w, t))
    requires forall e | e in r.data.events && e.PushFailed? :: e in w.data.events
    ensures CreditInv(r, credits)
  {
    HoldersMove(w, r, t);
    OthersFit(w, r, t);
  }

  lemma ReadyActs(w: World, credits: nat, t: Tid, m: Move)
    requires CreditInv(w, credits) && Sized(w) && StageOf(w, t).Ready?
    ensures CreditInv(Act(w, t, m), credits)
  {
    var r := Act(w, t, m);
    assert Fits(w, t);
    MovedByStep(w, t, m);
    assert StageOf(r, DRAINER) == StageOf(w, DRAINER);
    StepKeeps(w.transit, t, StartPull);
    StartEffect(w.transit, t, StartPull);
    Assemble(w, r, credits, t);
  }

  lemma TakingActs(w: World, credits: nat, t: Tid, m: Move)
    requires CreditInv(w, credits) && Sized(w) && StageOf(w, t).Taking?
    ensures CreditInv(Act(w, t, m), credits)
  {
    var r := Act(w, t, m);
    assert Fits(w, t);
    MovedByStep(w, t, m);
    assert StageOf(r, DRAINER) == StageOf(w, DRAINER);
    StepKeeps(w.transit, t, Go(m.spurious));
    PullEffect(w.transit, t, Go(m.spurious));
    var q := Step(w.transit, t, Go(m.spurious));
    assert r.data == w.data && r.transit == q && r.lost == w.lost;
    assert HasToken(w, t) == InRead(PcOf(w.transit, t));
    assert HasToken(r, t) == (InRead(PcOf(q, t)) || (PcOf(q, t) == Idle && InRead(PcOf(w.transit, t))));
    assert Carried(r) == Carried(w);
    hide Act, Step;
    Assemble(w, r, credits, t);
  }

  lemma HoldingActs(w: World, credits: nat, t: Tid, m: Move)
    requires CreditInv(w, credits) && Sized(w) && StageOf(w, t).Holding?
    ensures CreditInv(Act(w, t, m), credits)
  {
    var r := Act(w, t, m);
    assert Fits(w, t);
    MovedByStep(w, t, m);
    assert StageOf(r, DRAINER) == StageOf(w, DRAINER);
    DataCounts(w.data, t, StartPush(m.packet));
    StartEffect(w.data, t, StartPush(m.packet));
    Assemble(w, r, credits, t);
  }

  /** A push by a token holder: it never gives up, and its token becomes an item. */
  lemma PlacingData(w: World, credits: nat, t: Tid, c: Choice)
    requires CreditInv(w, credits) && Sized(w) && StageOf(w, t) == Placing && c.Go?
    ensures
      var (a, q) := (PcOf(w.data, t), Step(w.data, t, c));
      var b := PcOf(q, t);
      && SoleConsumer(q, DRAINER) && Floor(q, DRAINER) == Floor(w.data, DRAINER)
      && (IsPush(b) || (b == Idle && Succeeded(q)))
      && q.tail + Bit(Unclaimed(b)) == w.data.tail + Bit(Unclaimed(a))
      && (forall e | e in q.events && e.PushFailed? :: e in w.data.events)
  {
    assert Fits(w, t);
    DataCounts(w.data, t, c);
    PushEffect(w.data, t, c);
    if PcOf(w.data, t).PushLoadSeq? {
      HolderFindsRoom(w, credits, t);
    }
  }

  /** What an access of a placing receiver changes. */
  lemma PlacingFrame(w: World, t: Tid, m: Move)
    requires Sized(w) && StageOf(w, t).Placing? && Fits(w, t)
    ensures var (r, q) := (Act(w, t, m), Step(w.data, t, Go(m.spurious)));
            && r.data == q && r.transit == w.transit && StageOf(r, DRAINER) == StageOf(w, DRAINER)
            && StageOf(r, t) == (if Finished(q, t) then Ready else Placing) && t in r.stage
            && r.lost == w.lost + Bit(Finished(q, t) && !Succeeded(q))
  {
    hide Step;
  }

  lemma PlacingActs(w: World, credits: nat, t: Tid, m: Move)
    requires CreditInv(w, credits) && Sized(w) && StageOf(w, t).Placing?
    ensures CreditInv(Act(w, t, m), credits)
  {
    var r := Act(w, t, m);
    assert Fits(w, t);
    MovedByStep(w, t, m);
    PlacingData(w, credits, t, Go(m.spurious));
    PlacingFrame(w, t, m);
    hide Act, Step;
    assert Carried(r) == Carried(w);
    Assemble(w, r, credits, t);
  }

  lemma CollectingActs(w: World, credits: nat, t: Tid, m: Move)
    requires CreditInv(w, credits) && Sized(w) && StageOf(w, t).Collecting?
    ensures CreditInv(Act(w, t, m), credits)
  {
    var r := Act(w, t, m);
    assert Fits(w, t);
    MovedByStep(w, t, m);
    DataCounts(w.data, t, StartPull);
    StartEffect(w.data, t, StartPull);
    Assemble(w, r, credits, t);
  }

  lemma DrainingActs(w: World, credits: nat, t: Tid, m: Move)
    requires CreditInv(w, credits) && Sized(w) && StageOf(w, t).Draining?
    ensures CreditInv(Act(w, t, m), credits)
  {
    var r := Act(w, t, m);
    assert Fits(w, t);
    MovedByStep(w, t, m);
    DataCounts(w.data, t, Go(m.spurious));
    PullEffect(w.data, t, Go(m.spurious));
    Assemble(w, r, credits, t);
  }

  lemma GivingActs(w: World, credits: nat, t: Tid, m: Move)
    requires CreditInv(w, credits) && Sized(w) && StageOf(w, t).Giving?
    ensures CreditInv(Act(w, t, m), credits)
  {
    var r := Act(w, t, m);
    assert Fits(w, t);
    MovedByStep(w, t, m);
    var got := StageOf(w, t).got;
    if got != [] {
      StepKeeps(w.transit, t, StartPush(got[0]));
      StartEffect(w.transit, t, StartPush(got[0]));
    }
    Assemble(w, r, credits, t);
  }

  lemma ReturningActs(w: World, credits: nat, t: Tid, m: Move)
    requires CreditInv(w, credits) && Sized(w) && StageOf(w, t).Returning?
    ensures CreditInv(Act(w, t, m), credits)
  {
    var r := Act(w, t, m);
    assert Fits(w, t);
    MovedByStep(w, t, m);
    StepKeeps(w.transit, t, Go(m.spurious));
    PushEffect(w.transit, t, Go(m.spurious));
    Assemble(w, r, credits, t);
  }

  lemma ActKeeps(w: World, credits: nat, t: Tid, m: Move)
    requires CreditInv(w, credits) && Sized(w)
    ensures CreditInv(Act(w, t, m), credits)
  {
    match StageOf(w, t) {
      case Ready => ReadyActs(w, credits, t, m);
      case Taking => TakingActs(w, credits, t, m);
      case Holding => HoldingActs(w, credits, t, m);
      case Placing => PlacingActs(w, credits, t, m);
      case Collecting(_) => CollectingActs(w, credits, t, m);
      case Draining(_) => DrainingActs(w, credits, t, m);
      case Giving(_) => GivingActs(w, credits, t, m);
      case Returning(_) => ReturningActs(w, credits, t, m);
    }
  }

  lemma {:induction false} PerformKeeps(w: World, credits: nat, moves: Moves)
    requires CreditInv(w, credits) && Sized(w)
    ensures CreditInv(Perform(w, moves), credits)
    decreases |moves|
  {
    if moves != [] {
      var n := |moves| - 1;
      PerformKeeps(w, credits, moves[..n]);
      ActKeeps(Perform(w, moves[..n]), credits, moves[n].0, moves[n].1);
    }
  }

  // ------------------------------------------------------------ main results

  /** An empty data queue beside a transit queue at rest with its tokens. */
  function Start(junk: seq<Ptr>, transit: State): World {
    World(Init(junk), transit, map[], 0)
  }

  lemma StartInv(junk: seq<Ptr>, transit: State)
    requires Quiet(transit) && |junk| == |transit.cells|
    ensures |Contents(transit)| <= |junk|
    ensures CreditInv(Start(junk, transit), |Contents(transit)|)
  {
    InitInv(junk);
    WindowBound(transit);
    var w := Start(junk, transit);
    assert SoleConsumer(w.data, DRAINER);
    assert Holders(w) == {};
    forall t: Tid
      ensures Fits(w, t)
    {
      assert t in transit.threads ==> transit.threads[t] == Idle;
    }
  }

  /** In every run, with any number of receivers and one drainer, no push into the
      data queue returns 0, and the tokens in transit, in the receivers' and the
      drainer's hands, in the data queue and lost always add up to the first ones. */
  lemma DataQueueNeverFull(junk: seq<Ptr>, transit: State, moves: Moves)
    requires Quiet(transit) && |junk| == |transit.cells|
    ensures
      var w := Perform(Start(junk, transit), moves);
      && Credits(w) == |Contents(transit)| <= |junk|
      && w.data.head <= w.data.tail && w.transit.head <= w.transit.tail
      && forall e | e in w.data.events :: !e.PushFailed?
  {
    StartInv(junk, transit);
    WindowBound(transit);
    PerformKeeps(Start(junk, transit), |Contents(transit)|, moves);
  }

  /** A give-back fails exactly when some receiver has claimed the token whose cell
      comes next in the transit queue and has not stored its release yet. */
  lemma GiveBackFailsIff(w: World, credits: nat, m: Move)
    requires CreditInv(w, credits) && Sized(w)
    requires StageOf(w, DRAINER).Returning? && PcOf(w.transit, DRAINER).PushLoadSeq?
    ensures
      var (q, pos, n) := (w.transit, PcOf(w.transit, DRAINER).pos, |w.transit.cells|);
      Act(w, DRAINER, m).lost == w.lost + 1 <==>
        pos == q.tail && pos >= n && exists t: Tid :: StageOf(w, t) == Taking && Pulling(PcOf(q, t), pos - n)
  {
    var (q, pos, n) := (w.transit, PcOf(w.transit, DRAINER).pos, |w.transit.cells|);
    var r := Act(w, DRAINER, m);
    assert Fits(w, DRAINER);
    PushFailsIff(q, DRAINER, Go(m.spurious));
    if pos == q.tail && pos >= n {
      var ph := q.phase[pos - n];
      WindowBound(w.data);
      WindowBound(q);
      assert ph.Reading? ==> Pulling(PcOf(q, ph.t), pos - n) && Fits(w, ph.t) && StageOf(w, ph.t) == Taking;
      forall t: Tid | Pulling(PcOf(q, t), pos - n)
        ensures ph == Reading(t)
      {
        assert PcOk(q, t, q.threads[t]);
      }
    }
  }

  /** Pushing the initial tokens, one after the other, into a fresh queue. */
  lemma {:induction false} InitialFill(junk: seq<Ptr>, tokens: seq<Ptr>, t: Tid) returns (sched: Schedule)
    requires |junk| >= 2 && |tokens| <= |junk|
    ensures By(sched, t)
    ensures var s := Run(Init(junk), sched);
            Quiet(s) && |s.cells| == |junk| && Contents(s) == tokens && s.head == 0
  {
    hide Step, Inv;
    if tokens == [] {
      sched := [];
      InitInv(junk);
    } else {
      var n := |tokens| - 1;
      var first := InitialFill(junk, tokens[..n], t);
      var s := Run(Init(junk), first);
      SoloPushRoom(s, t, tokens[n], 0);
      SoloBy(t, StartPush(tokens[n]), 0, true);
      sched := first + Solo(t, StartPush(tokens[n]), 0, true);
      RunAppend(Init(junk), first, Solo(t, StartPush(tokens[n]), 0, true));
      assert tokens == tokens[..n] + [tokens[n]];
    }
  }

  // --------------------------------------------------- a token that gets lost

  /** k accesses in a row by thread t. */
  function Repeat(w: World, t: Tid, m: Move, k: nat): (r: World)
    requires Sized(w)
    ensures Sized(r)
  {
    if k == 0 then w else Act(Repeat(w, t, m, k - 1), t, m)
  }

  lemma PerformSnoc(w: World, moves: Moves, t: Tid, m: Move)
    requires Sized(w)
    ensures Perform(w, moves + [(t, m)]) == Act(Perform(w, moves), t, m)
  {
    var longer := moves + [(t, m)];
    assert longer[..|longer| - 1] == moves && longer[|longer| - 1] == (t, m);
  }

  /** Prolongs a run by three accesses of one thread. */
  lemma Prolong(w: World, moves: Moves, from: World, t: Tid, m: Move, to: World)
    returns (longer: Moves)
    requires Sized(w) && Perform(w, moves) == from && Repeat(from, t, m, 3) == to
    ensures Perform(w, longer) == to
  {
    var x := (t, m);
    longer := moves + [x] + [x] + [x];
    PerformSnoc(w, moves, t, m);
    PerformSnoc(w, moves + [x], t, m);
    PerformSnoc(w, moves + [x] + [x], t, m);
    assert Repeat(from, t, m, 1) == Act(from, t, m);
    assert Repeat(from, t, m, 2) == Act(Act(from, t, m), t, m);
  }

  const GO := Move(7, false, true)
  const STOP := Move(7, false, false)

  /** Two tokens, two cells: stations of a run in which receiver 1 is slow. */
  function TransitCells(second: Cell): seq<Cell> { [Cell(1, 10), second] }

  function Transit(second: Cell, head: nat, threads: map<Tid, Pc>, phase: seq<Phase>, events: seq<Event>): State {
    State(TransitCells(second), 2, head, threads, [Claim(9, 10), Claim(9, 11)], phase, events)
  }

  function FullTransit(): State { Transit(Cell(2, 11), 0, map[], [Full, Full], []) }

  function Fresh(): State { Init([0, 0]) }

  /** Receiver 1 has announced itself ... */
  function Scene0(): World {
    World(Fresh(), FullTransit().(threads := map[1 := PullLoadHead]), map[1 := Taking], 0)
  }

  /** ... has claimed the first token and not read it. */
  function Scene1(): World {
    World(Fresh(), Transit(Cell(2, 11), 1, map[1 := PullRead(0)], [Reading(1), Full], []), map[1 := Taking], 0)
  }

  lemma To1()
    ensures Act(Start([0, 0], FullTransit()), 1, GO) == Scene0()
    ensures Repeat(Scene0(), 1, GO, 3) == Scene1()
  {
    assert Act(Start([0, 0], FullTransit()), 1, GO).transit == Scene0().transit;
    var w1 := Act(Scene0(), 1, GO);
    assert w1.transit == FullTransit().(threads := map[1 := PullLoadSeq(0)]) && w1.stage == map[1 := Taking];
    assert Repeat(Scene0(), 1, GO, 2).transit == FullTransit().(threads := map[1 := PullCas(0)]);
  }

  /** Receiver 2 is about to claim the second token ... */
  function Scene2(): World {
    Scene1().(transit := Scene1().transit.(threads := map[1 := PullRead(0), 2 := PullCas(1)]),
              stage := map[1 := Taking, 2 := Taking])
  }

  lemma To2()
    ensures Repeat(Scene1(), 2, GO, 3) == Scene2()
  {
    var w2 := Repeat(Scene1(), 2, GO, 2);
    assert w2.transit == Scene1().transit.(threads := map[1 := PullRead(0), 2 := PullLoadSeq(1)]);
    assert w2.stage == map[1 := Taking, 2 := Taking];
  }

  /** ... and has taken it all the way. */
  function Scene3(): World {
    World(Fresh(), SlowTransit(), map[1 := Taking, 2 := Holding], 0)
  }

  function SlowTransit(): State {
    Transit(Cell(3, 11), 2, map[1 := PullRead(0), 2 := Idle], [Reading(1), Released], [Pulled(2, 1, 11)])
  }

  lemma To3()
    ensures Repeat(Scene2(), 2, GO, 3) == Scene3()
  {
    var q := Scene2().transit;
    var w1 := Act(Scene2(), 2, GO);
    assert w1.transit ==
      q.(head := 2, threads := map[1 := PullRead(0), 2 := PullRead(1)], phase := [Reading(1), Reading(2)]);
    assert w1.stage == Scene2().stage;
    var w2 := Act(w1, 2, GO);
    assert w2.transit == w1.transit.(threads := map[1 := PullRead(0), 2 := PullRelease(1, 11)]);
    assert w2.stage == Scene2().stage;
    assert Act(w2, 2, GO).transit == SlowTransit();
    assert Repeat(Scene2(), 2, GO, 2) == w2;
  }

  /** Its packet is about to enter the data queue ... */
  function Scene4(): World {
    World(Fresh().(threads := map[2 := PushCas(7, 0)]), SlowTransit(), map[1 := Taking, 2 := Placing], 0)
  }

  lemma To4()
    ensures Repeat(Scene3(), 2, GO, 3) == Scene4()
  {
    assert Fresh().cells == [Cell(0, 0), Cell(1, 0)];
    var w2 := Repeat(Scene3(), 2, GO, 2);
    assert w2.data == Fresh().(threads := map[2 := PushLoadSeq(7, 0)]);
    assert w2.stage == map[1 := Taking, 2 := Placing];
  }

  /** ... and is in. */
  function Scene5(): World {
    World(OneItem(), SlowTransit(), map[1 := Taking, 2 := Ready], 0)
  }

  function OneItem(): State {
    State([Cell(1, 7), Cell(1, 0)], 1, 0, map[2 := Idle], [Claim(2, 7)], [Full], [Pushed(2, 0, 7)])
  }

  lemma To5()
    ensures Repeat(Scene4(), 2, GO, 3) == Scene5()
  {
    assert Fresh().cells == [Cell(0, 0), Cell(1, 0)];
    var w1 := Act(Scene4(), 2, GO);
    assert w1.data == State(Fresh().cells, 1, 0, map[2 := PushWrite(7, 0)], [Claim(2, 7)], [Writing(2)], []);
    assert w1.stage == Scene4().stage;
    var w2 := Act(w1, 2, GO);
    assert w2.data == w1.data.(cells := [Cell(0, 7), Cell(1, 0)], threads := map[2 := PushPublish(7, 0)]);
    assert w2.stage == Scene4().stage;
    assert Act(w2, 2, GO).data == OneItem();
    assert Repeat(Scene4(), 2, GO, 2) == w2;
  }

  /** The drainer is about to claim the packet ... */
  function Scene6(): World {
    World(OneItem().(threads := map[2 := Idle, 0 := PullCas(0)]), SlowTransit(),
          map[1 := Taking, 2 := Ready, 0 := Draining([])], 0)
  }

  lemma To6()
    ensures Repeat(Scene5(), 0, GO, 3) == Scene6()
  {
    var w2 := Repeat(Scene5(), 0, GO, 2);
    assert w2.data == OneItem().(threads := map[2 := Idle, 0 := PullLoadSeq(0)]);
    assert w2.stage == Scene6().stage;
  }

  /** ... and has collected it. */
  function Scene7(): World {
    World(NoItem(), SlowTransit(), map[1 := Taking, 2 := Ready, 0 := Collecting([7])], 0)
  }

  function NoItem(): State {
    State([Cell(2, 7), Cell(1, 0)], 1, 1, map[2 := Idle, 0 := Idle], [Claim(2, 7)], [Released],
          [Pushed(2, 0, 7), Pulled(0, 0, 7)])
  }

  lemma To7()
    ensures Repeat(Scene6(), 0, GO, 3) == Scene7()
  {
    var d := OneItem();
    var w1 := Act(Scene6(), 0, GO);
    assert w1.data == d.(head := 1, threads := map[2 := Idle, 0 := PullRead(0)], phase := [Reading(0)]);
    assert w1.stage == Scene6().stage;
    var w2 := Act(w1, 0, GO);
    assert w2.data == w1.data.(threads := map[2 := Idle, 0 := PullRelease(0, 7)]);
    assert w2.stage == Scene6().stage;
    assert Act(w2, 0, GO).data == NoItem();
    assert [] + [LastValue(NoItem())] == [7];
    assert Act(w2, 0, GO).stage == Scene7().stage;
    assert Repeat(Scene6(), 0, GO, 2) == w2;
  }

  /** Its give-back meets the cell receiver 1 has not released: the token is lost. */
  lemma ToLoss()
    ensures Repeat(Act(Scene7(), 0, STOP), 0, STOP, 3).lost == 1
  {
    var w1 := Act(Scene7(), 0, STOP);
    assert w1 == Scene7().(stage := map[1 := Taking, 2 := Ready, 0 := Giving([7])]);
    var w2 := Act(w1, 0, STOP);
    var st := map[1 := Taking, 2 := Ready, 0 := Returning([7])];
    var q2 := SlowTransit().(threads := map[1 := PullRead(0), 2 := Idle, 0 := PushLoadTail(7)]);
    assert w2 == World(NoItem(), q2, st, 0);
    var w3 := Act(w2, 0, STOP);
    var q3 := SlowTransit().(threads := map[1 := PullRead(0), 2 := Idle, 0 := PushLoadSeq(7, 2)]);
    assert w3 == World(NoItem(), q3, st, 0);
    assert Repeat(w1, 0, STOP, 2) == w3;
    assert Act(w3, 0, STOP).lost == 1;
  }

  lemma FullTransitQuiet()
    ensures Quiet(FullTransit()) && Contents(FullTransit()) == [10, 11]
  {
    var s := FullTransit();
    assert CellAt(s, 0) && CellAt(s, 1);
  }

  /** So a push into the transit queue can return 0 although every token is
      accounted for: a run from a full transit queue that loses one. */
  lemma GiveBackCanFail() returns (moves: Moves)
    ensures Quiet(FullTransit()) && Contents(FullTransit()) == [10, 11]
    ensures Perform(Start([0, 0], FullTransit()), moves).lost == 1
  {
    FullTransitQuiet();
    var w := Start([0, 0], FullTransit());
    To1();
    PerformSnoc(w, [], 1, GO);
    moves := Prolong(w, [] + [(1, GO)], Scene0(), 1, GO, Scene1());
    To2();
    moves := Prolong(w, moves, Scene1(), 2, GO, Scene2());
    To3();
    moves := Prolong(w, moves, Scene2(), 2, GO, Scene3());
    To4();
    moves := Prolong(w, moves, Scene3(), 2, GO, Scene4());
    To5();
    moves := Prolong(w, moves, Scene4(), 2, GO, Scene5());
    To6();
    moves := Prolong(w, moves, Scene5(), 0, GO, Scene6());
    To7();
    moves := Prolong(w, moves, Scene6(), 0, GO, Scene7());
    ToLoss();
    PerformSnoc(w, moves, 0, STOP);
    var last := Act(Scene7(), 0, STOP);
    moves := Prolong(w, moves + [(0, STOP)], last, 0, STOP, Repeat(last, 0, STOP, 3));
  }
}
