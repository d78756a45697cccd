/** Every call on the ring, in any interleaving with the other thread: a call that finds
    room, or entries, finishes with exactly its own objects, and the outcomes of a thread
    are those of its calls, one for one and in their order. */
module SpscCalls {
  import opened Bits
  import opened SpscModel
  import opened SpscTheorems

  /** How many of the moves are this one. */
  function Goes(moves: seq<Move>, m: Move): nat {
    if moves == [] then 0 else Goes(moves[..|moves| - 1], m) + Bit(moves[|moves| - 1] == m)
  }

  predicate ProducerCall(m: Move) {
    m.Enqueue? || m.EnqueueUnlessFull?
  }

  predicate ConsumerCall(m: Move) {
    m.Dequeue? || m.DequeueUnlessEmpty?
  }

  predicate ByProducer(e: Event) {
    e.Enqueued? || e.QuotaExceeded? || e.NoRoom? || e.FoundFull?
  }

  /** The outcomes of the producer's calls, or of the consumer's. */
  function Outcomes(events: seq<Event>, producer: bool): seq<Event> {
    if events == [] then []
    else
      var e := events[|events| - 1];
      Outcomes(events[..|events| - 1], producer) + (if ByProducer(e) == producer then [e] else [])
  }

  lemma OutcomesNext(events: seq<Event>, e: Event, producer: bool)
    ensures Outcomes(events + [e], producer) ==
            Outcomes(events, producer) + (if ByProducer(e) == producer then [e] else [])
  {
    assert (events + [e])[..|events|] == events;
  }

  // -------------------------------------------------------------- a call that has room

  /** Where the producer is after k accesses of a call that is not turned away. */
  ghost predicate Enqueueing(pc: ProducerPc, objs: seq<Ptr>, check: bool, k: nat) {
    var j := if check then k - 1 else k;
    if j == -1 then |objs| == 1 && pc == PIsFull(objs[0])
    else if j == 0 then pc == PLoad(objs, check)
    else if j == 1 then pc.PClaim? && pc.objs == objs
    else if j <= |objs| + 2 then pc.PCopy? && pc.objs == objs && pc.i == j - 2
    else pc == PIdle
  }

  /** The accesses that such a call takes. */
  function Accesses(n: nat, check: bool): nat {
    n + 3 + Bit(check)
  }

  /** The state r after k accesses of the call that began in s. */
  ghost predicate Sending(s: State, r: State, objs: seq<Ptr>, check: bool, k: nat) {
    var done := k >= Accesses(|objs|, check);
    && Inv(r) && r.mask == s.mask && r.ct >= s.ct
    && Enqueueing(r.producer, objs, check, k)
    && r.pt == s.pt + (if done then |objs| else 0)
    && r.enqueued == s.enqueued + (if done then objs else [])
    && Outcomes(r.events, true) == Outcomes(s.events, true) + (if done then [Enqueued(|objs|)] else [])
  }

  /** What the consumer does leaves the producer alone, and makes room. */
  lemma ConsumerMoves(r: State, m: Move)
    requires Inv(r) && !ProducerCall(m) && !m.ProducerGoes?
    ensures var q := Step(r, m);
            && q.producer == r.producer && q.enqueued == r.enqueued && q.pt == r.pt && q.mask == r.mask && q.ct >= r.ct
            && Outcomes(q.events, true) == Outcomes(r.events, true)
  {
    var q := Step(r, m);
    if q.events != r.events {
      OutcomesNext(r.events, q.events[|r.events|], true);
    }
  }

  /** One access of the producer that is not turned away. */
  lemma ProducerMoves(r: State)
    requires Inv(r) && (r.producer.PIsFull? ==> r.pt - r.ct < r.mask)
    requires r.producer.PLoad? ==> |r.producer.objs| <= r.mask - (r.pt - r.ct)
    ensures var (a, q) := (r.producer, Step(r, ProducerGoes));
            var last := a.PCopy? && a.i == |a.objs|;
            && q.mask == r.mask && q.ct == r.ct
            && q.pt == r.pt + (if last then |a.objs| else 0)
            && q.enqueued == r.enqueued + (if last then a.objs else [])
            && Outcomes(q.events, true) == Outcomes(r.events, true) + (if last then [Enqueued(|a.objs|)] else [])
            && match a {
                 case PIdle => q.producer == PIdle
                 case PIsFull(obj) => q.producer == PLoad([obj], true)
                 case PLoad(objs, _) => q.producer.PClaim? && q.producer.objs == objs
                 case PClaim(objs, _, _) => q.producer.PCopy? && q.producer.objs == objs && q.producer.i == 0
                 case PCopy(objs, _, _, i) =>
                   if last then q.producer == PIdle
                   else q.producer.PCopy? && q.producer.objs == objs && q.producer.i == i + 1
               }
  {
    FullIsExact(r);
    FreeIsExact(r);
    var q := Step(r, ProducerGoes);
    if r.producer.PCopy? && r.producer.i == |r.producer.objs| {
      NeverOverQuota(r, r.producer.free, |r.producer.objs|);
      OutcomesNext(r.events, Enqueued(|r.producer.objs|), true);
    }
    hide GoodSize, IsFull, FreeEntries, OverQuota, U32, Outcomes;
  }

  /** A call under way has the room it needs, and its last access is the one that adds. */
  lemma EnqueueingRoom(s: State, r: State, objs: seq<Ptr>, check: bool, k: nat)
    requires Sending(s, r, objs, check, k) && |objs| <= s.mask - (s.pt - s.ct)
    ensures var a := r.producer;
            && (a.PIsFull? ==> r.pt - r.ct < r.mask) && (a.PLoad? ==> |a.objs| <= r.mask - (r.pt - r.ct))
            && (a.PCopy? && a.i == |a.objs| <==> k + 1 == Accesses(|objs|, check))
            && (!a.PIdle? ==> k < Accesses(|objs|, check))
  {
    hide Inv, Outcomes;
  }

  lemma EnqueueingNext(r: State, objs: seq<Ptr>, check: bool, k: nat)
    requires Inv(r) && Enqueueing(r.producer, objs, check, k)
    requires (r.producer.PIsFull? ==> r.pt - r.ct < r.mask)
    requires r.producer.PLoad? ==> |r.producer.objs| <= r.mask - (r.pt - r.ct)
    ensures Enqueueing(Step(r, ProducerGoes).producer, objs, check, k + 1)
    ensures r.producer.PCopy? ==> r.producer.objs == objs
  {
    hide Inv, Step, Outcomes;
    ProducerMoves(r);
  }

  lemma SendingNext(s: State, r: State, objs: seq<Ptr>, check: bool, k: nat, m: Move)
    requires Sending(s, r, objs, check, k) && !ProducerCall(m) && |objs| <= s.mask - (s.pt - s.ct)
    ensures Sending(s, Step(r, m), objs, check, k + Bit(m == ProducerGoes))
  {
    hide Inv, Step, Outcomes;
    StepKeeps(r, m);
    if m == ProducerGoes {
      EnqueueingRoom(s, r, objs, check, k);
      EnqueueingNext(r, objs, check, k);
      ProducerMoves(r);
      hide Enqueueing;
    } else {
      hide Enqueueing;
      ConsumerMoves(r, m);
    }
  }

  lemma {:induction false} KeepsSending(s: State, r: State, objs: seq<Ptr>, check: bool, moves: seq<Move>)
    requires Sending(s, r, objs, check, 0) && |objs| <= s.mask - (s.pt - s.ct)
    requires forall i | 0 <= i < |moves| :: !ProducerCall(moves[i])
    ensures Sending(s, Run(r, moves), objs, check, Goes(moves, ProducerGoes))
  {
    hide Sending, Step;
    if moves != [] {
      var n := |moves| - 1;
      KeepsSending(s, r, objs, check, moves[..n]);
      SendingNext(s, Run(r, moves[..n]), objs, check, Goes(moves[..n], ProducerGoes), moves[n]);
    }
  }

  lemma SendingStarts(s: State, objs: seq<Ptr>, check: bool)
    requires Inv(s) && s.producer.PIdle? && |objs| <= s.mask - (s.pt - s.ct) && (check ==> |objs| == 1)
    ensures Sending(s, Step(s, if check then EnqueueUnlessFull(objs[0]) else Enqueue(objs)), objs, check, 0)
  {
    SizeBound(|s.ring|);
    StepKeeps(s, if check then EnqueueUnlessFull(objs[0]) else Enqueue(objs));
    hide Inv, Outcomes;
  }

  /** An enqueue that finds room: whatever the consumer does in between, after n + 3
      accesses of the producer exactly its objects have been added and it has returned. */
  lemma EnqueueFinishes(s: State, objs: seq<Ptr>, moves: seq<Move>)
    requires Inv(s) && s.producer.PIdle? && |objs| <= s.mask - (s.pt - s.ct)
    requires forall i | 0 <= i < |moves| :: !ProducerCall(moves[i])
    ensures var r := Run(Step(s, Enqueue(objs)), moves);
            if Goes(moves, ProducerGoes) < |objs| + 3 then !r.producer.PIdle? && r.enqueued == s.enqueued
            else r.producer.PIdle? && r.enqueued == s.enqueued + objs
                 && Outcomes(r.events, true) == Outcomes(s.events, true) + [Enqueued(|objs|)]
  {
    hide Inv, Outcomes, Run, Step, Goes;
    SendingStarts(s, objs, false);
    KeepsSending(s, Step(s, Enqueue(objs)), objs, false, moves);
  }

  /** The callers' pattern: a check that finds the ring not full and then an enqueue whose
      result is ignored add exactly the object that was checked for. */
  lemma CheckedEnqueueFinishes(s: State, obj: Ptr, moves: seq<Move>)
    requires Inv(s) && s.producer.PIdle? && s.pt - s.ct < s.mask
    requires forall i | 0 <= i < |moves| :: !ProducerCall(moves[i])
    ensures var r := Run(Step(s, EnqueueUnlessFull(obj)), moves);
            if Goes(moves, ProducerGoes) < 5 then !r.producer.PIdle? && r.enqueued == s.enqueued
            else r.producer.PIdle? && r.enqueued == s.enqueued + [obj]
                 && Outcomes(r.events, true) == Outcomes(s.events, true) + [Enqueued(1)]
  {
    hide Inv, Outcomes, Run, Step, Goes;
    SendingStarts(s, [obj], true);
    KeepsSending(s, Step(s, EnqueueUnlessFull(obj)), [obj], true, moves);
  }

  /** At its access the check gives up exactly when size - 1 objects are held, and then
      nothing has changed. */
  lemma CheckFindsFullIff(s: State)
    requires Inv(s) && s.producer.PIsFull?
    ensures Step(s, ProducerGoes) ==
            if s.pt - s.ct == s.mask then s.(producer := PIdle, events := s.events + [FoundFull])
            else s.(producer := PLoad([s.producer.obj], true))
  {
    FullIsExact(s);
    hide IsFull, GoodSize;
  }

  // ----------------------------------------------------------- a call that finds entries

  ghost predicate Dequeueing(pc: ConsumerPc, n: nat, check: bool, k: nat) {
    var j := if check then k - 1 else k;
    if j == -1 then n == 1 && pc == CIsEmpty
    else if j == 0 then pc == CLoad(n, check)
    else if j == 1 then pc.CClaim? && pc.n == n
    else if j <= n + 2 then pc.CCopy? && pc.n == n && |pc.got| == j - 2
    else pc == CIdle
  }

  ghost predicate Receiving(s: State, r: State, n: nat, check: bool, k: nat) {
    var done := k >= Accesses(n, check);
    && Inv(r) && s.enqueued <= r.enqueued && r.pt >= s.pt
    && Dequeueing(r.consumer, n, check, k)
    && r.ct == s.ct + (if done then n else 0)
    && Outcomes(r.events, false) == Outcomes(s.events, false) + (if done then [Dequeued(n)] else [])
  }

  /** What the producer does leaves the consumer alone, and adds entries. */
  lemma ProducerMovesOn(r: State, m: Move)
    requires Inv(r) && !ConsumerCall(m) && !m.ConsumerGoes?
    ensures var q := Step(r, m);
            && q.consumer == r.consumer && r.enqueued <= q.enqueued && q.pt >= r.pt && q.ct == r.ct
            && Outcomes(q.events, false) == Outcomes(r.events, false)
  {
    var q := Step(r, m);
    if q.events != r.events {
      OutcomesNext(r.events, q.events[|r.events|], false);
    }
  }

  lemma ConsumerMovesOn(r: State)
    requires Inv(r) && (r.consumer.CIsEmpty? ==> r.pt > r.ct)
    requires r.consumer.CLoad? ==> r.consumer.n <= r.pt - r.ct
    ensures var (a, q) := (r.consumer, Step(r, ConsumerGoes));
            var last := a.CCopy? && |a.got| == a.n;
            && q.enqueued == r.enqueued && q.pt == r.pt
            && q.ct == r.ct + (if last then a.n else 0)
            && Outcomes(q.events, false) == Outcomes(r.events, false) + (if last then [Dequeued(a.n)] else [])
            && match a {
                 case CIdle => q.consumer == CIdle
                 case CIsEmpty => q.consumer == CLoad(1, true)
                 case CLoad(n, _) => q.consumer.CClaim? && q.consumer.n == n
                 case CClaim(n, _) => q.consumer.CCopy? && q.consumer.n == n && q.consumer.got == []
                 case CCopy(n, _, got) =>
                   if last then q.consumer == CIdle
                   else q.consumer.CCopy? && q.consumer.n == n && |q.consumer.got| == |got| + 1
               }
  {
    EmptyIsExact(r);
    EntriesAreExact(r);
    if r.consumer.CCopy? && |r.consumer.got| == r.consumer.n {
      OutcomesNext(r.events, Dequeued(r.consumer.n), false);
    }
    hide GoodSize, U32, Outcomes;
  }

  lemma ReceivingNext(s: State, r: State, n: nat, check: bool, k: nat, m: Move)
    requires Receiving(s, r, n, check, k) && !ConsumerCall(m) && n <= s.pt - s.ct
    ensures Receiving(s, Step(r, m), n, check, k + Bit(m == ConsumerGoes))
  {
    hide Inv, Step, Outcomes;
    StepKeeps(r, m);
    if m == ConsumerGoes {
      ConsumerMovesOn(r);
    } else {
      ProducerMovesOn(r, m);
    }
  }

  lemma {:induction false} KeepsReceiving(s: State, r: State, n: nat, check: bool, moves: seq<Move>)
    requires Receiving(s, r, n, check, 0) && n <= s.pt - s.ct
    requires forall i | 0 <= i < |moves| :: !ConsumerCall(moves[i])
    ensures Receiving(s, Run(r, moves), n, check, Goes(moves, ConsumerGoes))
  {
    hide Receiving, Step;
    if moves != [] {
      var l := |moves| - 1;
      KeepsReceiving(s, r, n, check, moves[..l]);
      ReceivingNext(s, Run(r, moves[..l]), n, check, Goes(moves[..l], ConsumerGoes), moves[l]);
    }
  }

  lemma ReceivingStarts(s: State, n: nat, check: bool)
    requires Inv(s) && s.consumer.CIdle? && n <= s.pt - s.ct && (check ==> n == 1)
    ensures Receiving(s, Step(s, if check then DequeueUnlessEmpty else Dequeue(n)), n, check, 0)
  {
    SizeBound(|s.ring|);
    StepKeeps(s, if check then DequeueUnlessEmpty else Dequeue(n));
    hide Inv, Outcomes;
  }

  /** What has been dequeued when the consumer's tail has moved on by n. */
  lemma OldestOut(s: State, r: State, n: nat)
    requires Inv(s) && Inv(r) && s.enqueued <= r.enqueued && r.ct == s.ct + n <= s.pt
    ensures |s.enqueued| == s.pt && s.ct + n <= |s.enqueued| && r.dequeued == s.dequeued + s.enqueued[s.ct..s.ct + n]
  {
    Delivered(s);
    Delivered(r);
    assert |s.enqueued| == s.pt;
    hide Inv;
    assert r.enqueued[..s.ct + n] == s.enqueued[..s.ct + n] == s.enqueued[..s.ct] + s.enqueued[s.ct..s.ct + n];
  }

  /** A dequeue that finds enough entries: whatever the producer does in between, after
      n + 3 accesses of the consumer exactly the n oldest objects have come out. */
  lemma DequeueFinishes(s: State, n: nat, moves: seq<Move>)
    requires Inv(s) && s.consumer.CIdle? && n <= s.pt - s.ct
    requires forall i | 0 <= i < |moves| :: !ConsumerCall(moves[i])
    ensures var r := Run(Step(s, Dequeue(n)), moves);
            && s.ct + n <= |s.enqueued|
            && if Goes(moves, ConsumerGoes) < n + 3 then !r.consumer.CIdle? && r.dequeued == s.dequeued
               else r.consumer.CIdle? && r.dequeued == s.dequeued + s.enqueued[s.ct..s.ct + n]
                    && Outcomes(r.events, false) == Outcomes(s.events, false) + [Dequeued(n)]
  {
    hide Inv, Outcomes, Run, Step, Goes;
    ReceivingStarts(s, n, false);
    KeepsReceiving(s, Step(s, Dequeue(n)), n, false, moves);
    var r := Run(Step(s, Dequeue(n)), moves);
    OldestOut(s, r, r.ct - s.ct);
  }

  /** A check that finds the ring not empty and then a dequeue whose result is ignored take
      exactly the oldest object. */
  lemma CheckedDequeueFinishes(s: State, moves: seq<Move>)
    requires Inv(s) && s.consumer.CIdle? && s.pt > s.ct
    requires forall i | 0 <= i < |moves| :: !ConsumerCall(moves[i])
    ensures var r := Run(Step(s, DequeueUnlessEmpty), moves);
            && s.ct < |s.enqueued|
            && if Goes(moves, ConsumerGoes) < 5 then !r.consumer.CIdle? && r.dequeued == s.dequeued
               else r.consumer.CIdle? && r.dequeued == s.dequeued + [s.enqueued[s.ct]]
                    && Outcomes(r.events, false) == Outcomes(s.events, false) + [Dequeued(1)]
  {
    hide Inv, Outcomes, Run, Step, Goes;
    ReceivingStarts(s, 1, true);
    KeepsReceiving(s, Step(s, DequeueUnlessEmpty), 1, true, moves);
    var r := Run(Step(s, DequeueUnlessEmpty), moves);
    OldestOut(s, r, r.ct - s.ct);
  }

  /** At its access the check gives up exactly when nothing is held. */
  lemma CheckFindsEmptyIff(s: State)
    requires Inv(s) && s.consumer.CIsEmpty?
    ensures Step(s, ConsumerGoes) ==
            if s.pt == s.ct then s.(consumer := CIdle, events := s.events + [FoundEmpty])
            else s.(consumer := CLoad(1, true))
  {
    EmptyIsExact(s);
    hide U32, GoodSize;
  }

  // ------------------------------------------------------------ the calls of a whole run

  predicate Idle(s: State, producer: bool) {
    if producer then s.producer.PIdle? else s.consumer.CIdle?
  }

  /** A thread starts a call only when idle, and with a 32-bit count. */
  predicate Starts(s: State, m: Move, producer: bool) {
    && (if producer then ProducerCall(m) else ConsumerCall(m)) && Idle(s, producer)
    && (m.Enqueue? ==> |m.objs| < TWO_32) && (m.Dequeue? ==> m.n < TWO_32)
  }

  /** The calls that the producer, or the consumer, starts in a run. */
  function Calls(s: State, moves: seq<Move>, producer: bool): seq<Move> {
    if moves == [] then []
    else
      var (before, m) := (moves[..|moves| - 1], moves[|moves| - 1]);
      Calls(s, before, producer) + (if Starts(Run(s, before), m, producer) then [m] else [])
  }

  /** What a call is to enqueue, and how many objects it is to dequeue. */
  function Given(call: Move): seq<Ptr> {
    match call
    case Enqueue(objs) => objs
    case EnqueueUnlessFull(obj) => [obj]
    case _ => []
  }

  function Asked(call: Move): nat {
    match call
    case Dequeue(n) => n
    case DequeueUnlessEmpty => 1
    case _ => 0
  }

  /** A call adds all it was given, or takes all it asked for, or is turned away by what
      it tests first: the room, the entries, or its check. */
  predicate Answers(e: Event, call: Move) {
    match call
    case Enqueue(objs) => e == Enqueued(|objs|) || e == NoRoom(false)
    case EnqueueUnlessFull(_) => e == Enqueued(1) || e == FoundFull
    case Dequeue(n) => e == Dequeued(n) || e == NoEntry(false)
    case DequeueUnlessEmpty => e == Dequeued(1) || e == FoundEmpty
    case _ => false
  }

  /** The thread is at work on this call. */
  ghost predicate Serves(s: State, call: Move, producer: bool) {
    if producer then
      ProducerCall(call) &&
      match s.producer
      case PIdle => false
      case PIsFull(obj) => call == EnqueueUnlessFull(obj)
      case PLoad(objs, checked) => Given(call) == objs && checked == call.EnqueueUnlessFull?
      case PClaim(objs, _, _) => Given(call) == objs
      case PCopy(objs, _, _, _) => Given(call) == objs
    else
      ConsumerCall(call) &&
      match s.consumer
      case CIdle => false
      case CIsEmpty => call == DequeueUnlessEmpty
      case CLoad(n, checked) => Asked(call) == n && checked == call.DequeueUnlessEmpty?
      case CClaim(n, _) => Asked(call) == n
      case CCopy(n, _, _) => Asked(call) == n
  }

  /** What the accepted ones among the first calls enqueued, in their order ... */
  function Sent(calls: seq<Move>, outcomes: seq<Event>): seq<Ptr>
    requires |outcomes| <= |calls|
  {
    if outcomes == [] then []
    else
      var n := |outcomes| - 1;
      Sent(calls, outcomes[..n]) + (if outcomes[n].Enqueued? then Given(calls[n]) else [])
  }

  /** ... and how many objects they dequeued. */
  function Taken(calls: seq<Move>, outcomes: seq<Event>): nat
    requires |outcomes| <= |calls|
  {
    if outcomes == [] then 0
    else
      var n := |outcomes| - 1;
      Taken(calls, outcomes[..n]) + (if outcomes[n].Dequeued? then Asked(calls[n]) else 0)
  }

  ghost predicate Settled(s: State, calls: seq<Move>, outcomes: seq<Event>, producer: bool) {
    && |calls| == |outcomes| + (if Idle(s, producer) then 0 else 1)
    && (forall i | 0 <= i < |outcomes| :: Answers(outcomes[i], calls[i]))
    && (!Idle(s, producer) ==> Serves(s, calls[|calls| - 1], producer))
    && (if producer then s.enqueued == Sent(calls, outcomes) else s.ct == Taken(calls, outcomes))
  }

  /** What one move means for the calls of the thread. */
  ghost predicate Progress(s: State, r: State, m: Move, producer: bool) {
    var (a, b) := (Idle(s, producer), Idle(r, producer));
    if Starts(s, m, producer) then
      r.events == s.events && r.enqueued == s.enqueued && r.ct == s.ct && !b && Serves(r, m, producer)
    else if !a && b then
      && r.events != [] && r.events[..|r.events| - 1] == s.events
      && var e := r.events[|r.events| - 1];
         && ByProducer(e) == producer
         && forall call | Serves(s, call, producer) ::
              && Answers(e, call)
              && (producer ==> r.enqueued == s.enqueued + (if e.Enqueued? then Given(call) else []))
              && (!producer ==> r.ct == s.ct + (if e.Dequeued? then Asked(call) else 0))
    else
      && Outcomes(r.events, producer) == Outcomes(s.events, producer) && a == b
      && (if producer then r.enqueued == s.enqueued else r.ct == s.ct)
      && forall call | Serves(s, call, producer) :: Serves(r, call, producer)
  }

  lemma ProducerProgress(s: State)
    requires QuotaExceeded !in Step(s, ProducerGoes).events && NoRoom(true) !in Step(s, ProducerGoes).events
    ensures Progress(s, Step(s, ProducerGoes), ProducerGoes, true)
  {
    hide IsFull, FreeEntries, OverQuota, U32, Slot, Store, Outcomes;
    var r := Step(s, ProducerGoes);
    if Idle(r, true) && !Idle(s, true) {
      var e := r.events[|r.events| - 1];
      assert r.events == s.events + [e] && e in r.events;
    } else {
      assert r.events == s.events;
    }
  }

  lemma ConsumerProgress(s: State)
    requires NoEntry(true) !in Step(s, ConsumerGoes).events
    ensures Progress(s, Step(s, ConsumerGoes), ConsumerGoes, false)
  {
    hide U32, Slot, Outcomes, Load;
    var r := Step(s, ConsumerGoes);
    if Idle(r, false) && !Idle(s, false) {
      var e := r.events[|r.events| - 1];
      assert r.events == s.events + [e] && e in r.events;
    } else {
      assert r.events == s.events;
    }
  }

  /** The other thread's accesses. */
  lemma OtherGoes(s: State, producer: bool)
    ensures var m := if producer then ConsumerGoes else ProducerGoes;
            Progress(s, Step(s, m), m, producer)
  {
    hide IsFull, FreeEntries, OverQuota, U32, Slot, Outcomes;
    var r := Step(s, if producer then ConsumerGoes else ProducerGoes);
    if r.events != s.events {
      OutcomesNext(s.events, r.events[|s.events|], producer);
    }
    hide ProducerStep, ConsumerStep;
    assert if producer then r.producer == s.producer else r.consumer == s.consumer;
  }

  /** A move that starts a call, or nothing. */
  lemma StartProgress(s: State, m: Move, producer: bool)
    requires !m.ProducerGoes? && !m.ConsumerGoes?
    ensures Progress(s, Step(s, m), m, producer)
  {
    hide Outcomes;
  }

  lemma SettledNext(s: State, r: State, m: Move, producer: bool, calls: seq<Move>)
    requires Progress(s, r, m, producer) && Settled(s, calls, Outcomes(s.events, producer), producer)
    ensures Settled(r, calls + (if Starts(s, m, producer) then [m] else []), Outcomes(r.events, producer), producer)
  {
    hide Serves, Answers, Outcomes, Sent, Taken;
    var out := Outcomes(s.events, producer);
    if Starts(s, m, producer) {
      SentStands(calls, m, out);
    } else if !Idle(s, producer) && Idle(r, producer) {
      var e := r.events[|r.events| - 1];
      OutcomesNext(s.events, e, producer);
      assert r.events == s.events + [e] && calls + [] == calls;
      var last := calls[|calls| - 1];
      assert Serves(s, last, producer) && Answers(e, last);
      SentNext(calls, out, e);
    } else {
      assert calls + [] == calls;
    }
  }

  lemma SentNext(calls: seq<Move>, outcomes: seq<Event>, e: Event)
    requires |outcomes| < |calls|
    ensures var call := calls[|outcomes|];
            && Sent(calls, outcomes + [e]) == Sent(calls, outcomes) + (if e.Enqueued? then Given(call) else [])
            && Taken(calls, outcomes + [e]) == Taken(calls, outcomes) + (if e.Dequeued? then Asked(call) else 0)
  {
    assert (outcomes + [e])[..|outcomes|] == outcomes;
  }

  lemma {:induction false} SentStands(calls: seq<Move>, m: Move, outcomes: seq<Event>)
    requires |outcomes| <= |calls|
    ensures Sent(calls + [m], outcomes) == Sent(calls, outcomes)
    ensures Taken(calls + [m], outcomes) == Taken(calls, outcomes)
  {
    if outcomes != [] {
      SentStands(calls, m, outcomes[..|outcomes| - 1]);
    }
  }

  /** In every run the outcomes of each thread are those of its calls, in order; what has
      been enqueued is what the accepted calls were given, one after the other, and as
      many objects have been dequeued as the accepted calls asked for. */
  lemma {:induction false} EveryCallAnswered(junk: seq<Ptr>, moves: seq<Move>, producer: bool)
    requires GoodSize(|junk|)
    ensures var s := Run(Init(junk), moves);
            Settled(s, Calls(Init(junk), moves, producer), Outcomes(s.events, producer), producer)
  {
    InitInv(junk);
    if moves != [] {
      var (before, m) := (moves[..|moves| - 1], moves[|moves| - 1]);
      EveryCallAnswered(junk, before, producer);
      RunKeeps(Init(junk), before);
      var s := Run(Init(junk), before);
      hide Step, Settled, Progress, Outcomes, Starts, GoodSize, Shape, Order, ProducerOk, ConsumerOk, Contents;
      StepKeeps(s, m);
      if m.ProducerGoes? && producer {
        ProducerProgress(s);
      } else if m.ConsumerGoes? && !producer {
        ConsumerProgress(s);
      } else if m.ProducerGoes? || m.ConsumerGoes? {
        OtherGoes(s, producer);
      } else {
        StartProgress(s, m, producer);
      }
      SettledNext(s, Step(s, m), m, producer, Calls(Init(junk), before, producer));
    }
  }
}
