/** What becomes of the packets themselves: in every interleaving of the credit protocol
    each packet that a receiver sets out to place is queued once, each packet queued is
    handed on once and in order, and the addresses given back are those of the packets. */
module CreditDelivery {
  import opened Bits
  import opened MpmcModel
  import opened MpmcTheorems
  import opened CreditProtocol

  /** The packets that receiver t has set out to place in the data queue. */
  function Offered(w: World, moves: Moves, t: Tid): seq<Ptr>
    requires Sized(w)
    decreases |moves|
  {
    if moves == [] then []
    else
      var (before, (u, m)) := (moves[..|moves| - 1], moves[|moves| - 1]);
      Offered(w, before, t) +
      (if u == t && StageOf(Perform(w, before), t) == Holding then [m.packet] else [])
  }

  /** The packets that the drainer has sent and set out to give back. */
  function Handed(w: World, moves: Moves): seq<Ptr>
    requires Sized(w)
    decreases |moves|
  {
    if moves == [] then []
    else
      var (before, (u, m)) := (moves[..|moves| - 1], moves[|moves| - 1]);
      var st := StageOf(Perform(w, before), DRAINER);
      Handed(w, before) + (if u == DRAINER && st.Giving? && st.got != [] then [st.got[0]] else [])
  }

  /** The values that thread t has claimed positions for. */
  function ClaimsOf(log: seq<Claim>, t: Tid): seq<Ptr> {
    if log == [] then []
    else
      var c := log[|log| - 1];
      ClaimsOf(log[..|log| - 1], t) + (if c.owner == t then [c.value] else [])
  }

  lemma ClaimsNext(log: seq<Claim>, c: Claim, t: Tid)
    ensures ClaimsOf(log + [c], t) == ClaimsOf(log, t) + (if c.owner == t then [c.value] else [])
  {
    assert (log + [c])[..|log|] == log;
  }

  /** What a push by thread t has still to claim a position for. */
  function Waiting(pc: Pc): seq<Ptr> {
    match pc
    case PushLoadTail(v) => [v]
    case PushLoadSeq(v, _) => [v]
    case PushCas(v, _) => [v]
    case _ => []
  }

  /** What the drainer has collected and not yet set out to give back. */
  function InHand(st: Stage): seq<Ptr> {
    match st
    case Collecting(got) => got
    case Draining(got) => got
    case Giving(got) => got
    case Returning(got) => if got == [] then [] else got[1..]
    case _ => []
  }

  lemma RunInv(junk: seq<Ptr>, transit: State, moves: Moves)
    requires Quiet(transit) && |junk| == |transit.cells|
    ensures Sized(Start(junk, transit))
    ensures CreditInv(Perform(Start(junk, transit), moves), |Contents(transit)|)
  {
    StartInv(junk, transit);
    PerformKeeps(Start(junk, transit), |Contents(transit)|, moves);
  }

  // -------------------------------------------------------- what one access changes

  /** The log grows by the claim of the thread that moves, with the value it waits with. */
  lemma LogStep(s: State, t: Tid, c: Choice)
    requires |s.cells| >= 1
    ensures var (a, r) := (PcOf(s, t), Step(s, t, c));
            var b := PcOf(r, t);
            && (a == Idle ==> r.log == s.log && Waiting(b) == if c.StartPush? then [c.v] else [])
            && (r.log == s.log || (|Waiting(a)| == 1 && r.log == s.log + [Claim(t, Waiting(a)[0])] && Waiting(b) == []))
            && (a != Idle && r.log == s.log && (b != Idle || Waiting(a) == []) ==> Waiting(b) == Waiting(a))
  {
  }

  /** The receipts grow when a pull returns. */
  lemma ReceivedStep(s: State, t: Tid, c: Choice)
    requires |s.cells| >= 1
    ensures var (a, r) := (PcOf(s, t), Step(s, t, c));
            && Received(r.events) == Received(s.events) + (if a.PullRelease? then [a.got] else [])
            && (a.PullRelease? ==> PcOf(r, t) == Idle && Succeeded(r) && LastValue(r) == a.got)
  {
    var r := Step(s, t, c);
    if |r.events| > |s.events| {
      var e := r.events[|s.events|];
      assert r.events == s.events + [e];
      ReceivedSnoc(s.events, e);
    }
    hide Received;
  }

  // -------------------------------------------------- each packet is queued once

  /** What the queue has of thread t and what it is about to put there. */
  function Placed(w: World, t: Tid): seq<Ptr> {
    ClaimsOf(w.data.log, t) + Waiting(PcOf(w.data, t))
  }

  lemma OthersPlace(w: World, u: Tid, m: Move, t: Tid)
    requires Sized(w) && Inv(w.data) && u != t
    ensures Placed(Act(w, u, m), t) == Placed(w, t)
  {
    var (r, c) := (Act(w, u, m), DataChoice(w, u, m));
    ActIsStep(w, u, m);
    hide Act;
    if r.data != w.data {
      LogStep(w.data, u, c);
      StepFrame(w.data, u, c, t);
      hide Step;
      if r.data.log != w.data.log {
        ClaimsNext(w.data.log, r.data.log[|w.data.log|], t);
      }
    }
  }

  lemma OwnPlace(w: World, credits: nat, t: Tid, m: Move)
    requires CreditInv(w, credits) && Sized(w) && t != DRAINER
    ensures Placed(Act(w, t, m), t) == Placed(w, t) + (if StageOf(w, t) == Holding then [m.packet] else [])
  {
    assert Fits(w, t);
    if StageOf(w, t) == Holding {
      LogStep(w.data, t, StartPush(m.packet));
    } else if StageOf(w, t) == Placing {
      PlacingPlace(w, credits, t, m);
    }
  }

  lemma PlacingPlace(w: World, credits: nat, t: Tid, m: Move)
    requires CreditInv(w, credits) && Sized(w) && t != DRAINER && StageOf(w, t) == Placing
    ensures Placed(Act(w, t, m), t) == Placed(w, t)
  {
    assert Fits(w, t);
    var (c, r) := (Go(m.spurious), Act(w, t, m));
    PlacingData(w, credits, t, c);
    PlacingFrame(w, t, m);
    LogStep(w.data, t, c);
    PushEffect(w.data, t, c);
    hide Act, Step, CreditInv;
    if r.data.log != w.data.log {
      ClaimsNext(w.data.log, r.data.log[|w.data.log|], t);
    }
  }

  /** Every packet that a receiver sets out to place is queued exactly once and in its
      order; the last one may still be on its way. */
  lemma {:induction false} EveryPacketQueued(junk: seq<Ptr>, transit: State, moves: Moves, t: Tid)
    requires Quiet(transit) && |junk| == |transit.cells| && t != DRAINER
    ensures Placed(Perform(Start(junk, transit), moves), t) == Offered(Start(junk, transit), moves, t)
    decreases |moves|
  {
    hide Act, Placed, CreditInv, Quiet, Contents;
    RunInv(junk, transit, []);
    if moves == [] {
      NonePlaced(junk, transit, t);
    } else {
      var (before, (u, m)) := (moves[..|moves| - 1], moves[|moves| - 1]);
      EveryPacketQueued(junk, transit, before, t);
      RunInv(junk, transit, before);
      var w := Perform(Start(junk, transit), before);
      InvOf(w, |Contents(transit)|);
      if u == t {
        OwnPlace(w, |Contents(transit)|, t, m);
      } else {
        OthersPlace(w, u, m, t);
      }
    }
  }

  lemma NonePlaced(junk: seq<Ptr>, transit: State, t: Tid)
    ensures Placed(Start(junk, transit), t) == []
  {
  }

  lemma InvOf(w: World, credits: nat)
    requires CreditInv(w, credits)
    ensures Inv(w.data)
  {
  }

  // ------------------------------------------------- each packet is handed on once

  /** What has been received is what has been handed on and what is in hand. */
  ghost predicate Accounted(w: World, handed: seq<Ptr>) {
    Received(w.data.events) == handed + InHand(StageOf(w, DRAINER))
  }

  /** The next packet that the drainer hands on. */
  function Next(st: Stage): seq<Ptr> {
    if st.Giving? && st.got != [] then [st.got[0]] else []
  }

  lemma CollectingHands(w: World, m: Move, handed: seq<Ptr>)
    requires Sized(w) && StageOf(w, DRAINER).Collecting? && PcOf(w.data, DRAINER) == Idle && Accounted(w, handed)
    ensures Accounted(Act(w, DRAINER, m), handed)
  {
    hide Step, Received;
    ReceivedStep(w.data, DRAINER, StartPull);
  }

  lemma GivingFrame(w: World, m: Move)
    requires Sized(w)
    requires StageOf(w, DRAINER).Giving? || (StageOf(w, DRAINER).Returning? && StageOf(w, DRAINER).got != [])
    ensures var (r, st) := (Act(w, DRAINER, m), StageOf(w, DRAINER));
            r.data == w.data && InHand(st) == Next(st) + InHand(StageOf(r, DRAINER))
  {
    hide Step, Succeeded;
  }

  lemma GivingHands(w: World, m: Move, handed: seq<Ptr>)
    requires Sized(w) && Accounted(w, handed)
    requires StageOf(w, DRAINER).Giving? || (StageOf(w, DRAINER).Returning? && StageOf(w, DRAINER).got != [])
    ensures Accounted(Act(w, DRAINER, m), handed + Next(StageOf(w, DRAINER)))
  {
    var (r, st) := (Act(w, DRAINER, m), StageOf(w, DRAINER));
    GivingFrame(w, m);
    hide Act, Received, InHand, Next;
    assert handed + InHand(st) == handed + Next(st) + InHand(StageOf(r, DRAINER));
  }

  lemma DrainerHands(w: World, credits: nat, m: Move, handed: seq<Ptr>)
    requires CreditInv(w, credits) && Sized(w) && Accounted(w, handed)
    ensures Accounted(Act(w, DRAINER, m), handed + Next(StageOf(w, DRAINER)))
  {
    assert Fits(w, DRAINER);
    hide CreditInv, Act, Accounted;
    assert handed + [] == handed;
    match StageOf(w, DRAINER) {
      case Collecting(_) => CollectingHands(w, m, handed);
      case Draining(_) => DrainingHands(w, credits, m, handed);
      case Giving(_) => GivingHands(w, m, handed);
      case Returning(_) => GivingHands(w, m, handed);
    }
  }

  lemma DrainingFrame(w: World, m: Move)
    requires Sized(w) && StageOf(w, DRAINER).Draining?
    ensures var (r, q, got) := (Act(w, DRAINER, m), Step(w.data, DRAINER, Go(m.spurious)), StageOf(w, DRAINER).got);
            && r.data == q
            && InHand(StageOf(r, DRAINER)) == if Finished(q, DRAINER) && Succeeded(q) then got + [LastValue(q)] else got
  {
    hide Step;
  }

  lemma DrainingHands(w: World, credits: nat, m: Move, handed: seq<Ptr>)
    requires CreditInv(w, credits) && Sized(w) && StageOf(w, DRAINER).Draining? && Accounted(w, handed)
    ensures Accounted(Act(w, DRAINER, m), handed)
  {
    assert Fits(w, DRAINER);
    DrainingFrame(w, m);
    ReceivedStep(w.data, DRAINER, Go(m.spurious));
    PullEffect(w.data, DRAINER, Go(m.spurious));
    hide CreditInv, Step, Inv, Received, Act;
  }

  /** A receiver's access is no business of the drainer. */
  lemma ReceiverHands(w: World, credits: nat, t: Tid, m: Move, handed: seq<Ptr>)
    requires CreditInv(w, credits) && Sized(w) && t != DRAINER && Accounted(w, handed)
    ensures Accounted(Act(w, t, m), handed)
  {
    assert Fits(w, t);
    MovedByStep(w, t, m);
    ActIsStep(w, t, m);
    ReceivedStep(w.data, t, DataChoice(w, t, m));
    hide CreditInv, Act, Step, Received;
  }

  /** Every packet that a pull returned to the drainer is handed on once and in its order,
      or still in its hands, and what has been received is the oldest of what was queued:
      first in, first out from the receivers' pushes to the packets sent. */
  lemma {:induction false} EveryPacketHandedOn(junk: seq<Ptr>, transit: State, moves: Moves)
    requires Quiet(transit) && |junk| == |transit.cells|
    ensures var (w0, w) := (Start(junk, transit), Perform(Start(junk, transit), moves));
            && Received(w.data.events) == Handed(w0, moves) + InHand(StageOf(w, DRAINER))
            && Handed(w0, moves) + InHand(StageOf(w, DRAINER)) <= Values(w.data.log)
    decreases |moves|
  {
    hide Act, CreditInv, Quiet, Contents, Values, Received;
    RunInv(junk, transit, moves);
    OldestFirst(Perform(Start(junk, transit), moves), |Contents(transit)|);
    if moves == [] {
      NoneReceived(junk, transit);
    } else {
      var (before, (t, m)) := (moves[..|moves| - 1], moves[|moves| - 1]);
      EveryPacketHandedOn(junk, transit, before);
      RunInv(junk, transit, before);
      var (w, handed) := (Perform(Start(junk, transit), before), Handed(Start(junk, transit), before));
      assert Accounted(w, handed);
      if t == DRAINER {
        DrainerHands(w, |Contents(transit)|, m, handed);
      } else {
        ReceiverHands(w, |Contents(transit)|, t, m, handed);
        assert handed + [] == handed;
      }
    }
  }

  lemma NoneReceived(junk: seq<Ptr>, transit: State)
    ensures Received(Start(junk, transit).data.events) == []
  {
  }

  lemma OldestFirst(w: World, credits: nat)
    requires CreditInv(w, credits)
    ensures Received(w.data.events) <= Values(w.data.log)
  {
    var n := Floor(w.data, DRAINER);
    assert Values(w.data.log) == Values(w.data.log[..n]) + Values(w.data.log[n..]);
  }

  // ------------------------------------------------------ what is given back

  /** The first sequence is the second without k of its elements. */
  ghost predicate Thinned(a: seq<Ptr>, b: seq<Ptr>, k: nat)
    decreases |b|
  {
    if b == [] then a == [] && k == 0
    else
      var n := |b| - 1;
      || (a != [] && a[|a| - 1] == b[n] && Thinned(a[..|a| - 1], b[..n], k))
      || (k > 0 && Thinned(a, b[..n], k - 1))
  }

  lemma ThinnedBoth(a: seq<Ptr>, b: seq<Ptr>, k: nat, x: Ptr)
    requires Thinned(a, b, k)
    ensures Thinned(a + [x], b + [x], k)
  {
    assert (a + [x])[..|a|] == a && (b + [x])[..|b|] == b;
  }

  lemma {:induction false} ThinnedLess(a: seq<Ptr>, b: seq<Ptr>, k: nat, x: Ptr)
    requires Thinned(a + [x], b, k)
    ensures Thinned(a, b, k + 1)
    decreases |b|
  {
    var n := |b| - 1;
    assert (a + [x])[..|a|] == a;
    if k > 0 && Thinned(a + [x], b[..n], k - 1) {
      ThinnedLess(a, b[..n], k - 1, x);
    }
  }

  /** What the drainer has put into the transit queue since the first n tokens, and what it
      is about to put there. */
  function GivenBack(w: World, n: nat): seq<Ptr>
    requires n <= |w.transit.log|
  {
    Values(w.transit.log[n..]) + Waiting(PcOf(w.transit, DRAINER))
  }

  /** That is what has been handed on, but for the tokens that were lost. */
  ghost predicate Returned(w: World, n: nat, handed: seq<Ptr>) {
    n <= |w.transit.log| && Thinned(GivenBack(w, n), handed, w.lost)
  }

  lemma ValuesNext(log: seq<Claim>, n: nat, c: Claim)
    requires n <= |log|
    ensures Values((log + [c])[n..]) == Values(log[n..]) + [c.value]
  {
  }

  lemma GivingBack(w: World, credits: nat, m: Move, n: nat, handed: seq<Ptr>)
    requires CreditInv(w, credits) && Sized(w) && StageOf(w, DRAINER).Giving? && Returned(w, n, handed)
    ensures Returned(Act(w, DRAINER, m), n, handed + Next(StageOf(w, DRAINER)))
  {
    assert Fits(w, DRAINER);
    var got := StageOf(w, DRAINER).got;
    assert handed + [] == handed;
    if got != [] {
      LogStep(w.transit, DRAINER, StartPush(got[0]));
      ThinnedBoth(GivenBack(w, n), handed, w.lost, got[0]);
      assert GivenBack(w, n) + [got[0]] == Values(w.transit.log[n..]) + [got[0]];
    }
    hide Thinned, Step, CreditInv, Values;
  }

  lemma ReturningFrame(w: World, m: Move)
    requires Sized(w) && StageOf(w, DRAINER).Returning?
    ensures var (r, q) := (Act(w, DRAINER, m), Step(w.transit, DRAINER, Go(m.spurious)));
            r.transit == q && r.lost == w.lost + Bit(Finished(q, DRAINER) && !Succeeded(q))
  {
    hide Step;
  }

  /** A give-back under way claims its position, or gives up and loses its token, or goes
      on waiting. */
  lemma ReturningStep(w: World, credits: nat, m: Move)
    requires CreditInv(w, credits) && Sized(w) && StageOf(w, DRAINER).Returning?
    ensures var (q, r) := (w.transit, Act(w, DRAINER, m));
            var (a, b) := (Waiting(PcOf(q, DRAINER)), Waiting(PcOf(r.transit, DRAINER)));
            || (|a| == 1 && r.transit.log == q.log + [Claim(DRAINER, a[0])] && b == [] && r.lost == w.lost)
            || (|a| == 1 && r.transit.log == q.log && b == [] && r.lost == w.lost + 1)
            || (r.transit.log == q.log && b == a && r.lost == w.lost)
  {
    assert Fits(w, DRAINER);
    var (c, q, pc) := (Go(m.spurious), w.transit, PcOf(w.transit, DRAINER));
    ReturningFrame(w, m);
    LogStep(q, DRAINER, c);
    PushEffect(q, DRAINER, c);
    assert Unclaimed(pc) <==> Waiting(pc) != [];
    WaitsNot(PcOf(Step(q, DRAINER, c), DRAINER));
    hide CreditInv, Act, Step, Inv, Succeeded;
  }

  lemma ReturningBack(w: World, credits: nat, m: Move, n: nat, handed: seq<Ptr>)
    requires CreditInv(w, credits) && Sized(w) && StageOf(w, DRAINER).Returning? && Returned(w, n, handed)
    ensures Returned(Act(w, DRAINER, m), n, handed)
  {
    hide CreditInv, Act, Values, Waiting, Thinned, StageOf;
    ReturningStep(w, credits, m);
    var (log, r, a) := (w.transit.log, Act(w, DRAINER, m), Waiting(PcOf(w.transit, DRAINER)));
    if |a| == 1 && r.transit.log == log + [Claim(DRAINER, a[0])] {
      ValuesNext(log, n, Claim(DRAINER, a[0]));
      assert Values(log[n..]) + a == Values(log[n..]) + [a[0]] + [];
    } else if r.lost == w.lost + 1 {
      assert a == [a[0]];
      ThinnedLess(Values(log[n..]), handed, w.lost, a[0]);
      assert Values(log[n..]) + [] == Values(log[n..]);
    }
  }

  lemma WaitsNot(pc: Pc)
    ensures pc == Idle ==> Waiting(pc) == []
  {
  }

  lemma DrainerReturns(w: World, credits: nat, m: Move, n: nat, handed: seq<Ptr>)
    requires CreditInv(w, credits) && Sized(w) && Returned(w, n, handed)
    ensures Returned(Act(w, DRAINER, m), n, handed + Next(StageOf(w, DRAINER)))
  {
    assert Fits(w, DRAINER);
    assert handed + [] == handed;
    if StageOf(w, DRAINER).Giving? {
      GivingBack(w, credits, m, n, handed);
    } else if StageOf(w, DRAINER).Returning? {
      ReturningBack(w, credits, m, n, handed);
    } else {
      TransitStands(w, m);
    }
    hide CreditInv, Act, Thinned;
  }

  lemma TransitStands(w: World, m: Move)
    requires Sized(w) && (StageOf(w, DRAINER).Collecting? || StageOf(w, DRAINER).Draining?)
    ensures Act(w, DRAINER, m).transit == w.transit && Act(w, DRAINER, m).lost == w.lost
  {
  }

  /** A receiver's access puts nothing into the transit queue and loses nothing. */
  lemma ReceiverReturns(w: World, credits: nat, t: Tid, m: Move, n: nat, handed: seq<Ptr>)
    requires CreditInv(w, credits) && Sized(w) && t != DRAINER && Returned(w, n, handed)
    ensures Returned(Act(w, t, m), n, handed)
  {
    assert Fits(w, t);
    ActIsStep(w, t, m);
    LogStep(w.transit, t, TransitChoice(w, t, m));
    MovedByStep(w, t, m);
    NothingLostBy(w, credits, t, m);
    assert IsPull(PcOf(w.transit, t)) || PcOf(w.transit, t) == Idle;
    hide CreditInv, Act, Step, Thinned, Values;
  }

  lemma NothingLostBy(w: World, credits: nat, t: Tid, m: Move)
    requires CreditInv(w, credits) && Sized(w) && t != DRAINER
    ensures Act(w, t, m).lost == w.lost
  {
    assert Fits(w, t);
    if StageOf(w, t) == Placing {
      PlacingData(w, credits, t, Go(m.spurious));
      PlacingFrame(w, t, m);
      hide Act, CreditInv, Step;
    } else {
      hide Step;
    }
  }

  /** The transit queue is given the addresses of the packets handed on, in their order and
      none but them: as many are missing as tokens were lost. */
  lemma {:induction false} AddressesGivenBack(junk: seq<Ptr>, transit: State, moves: Moves)
    requires Quiet(transit) && |junk| == |transit.cells|
    ensures var (w0, w) := (Start(junk, transit), Perform(Start(junk, transit), moves));
            && |transit.log| <= |w.transit.log|
            && Thinned(GivenBack(w, |transit.log|), Handed(w0, moves), w.lost)
    decreases |moves|
  {
    hide Act, CreditInv, Thinned, GivenBack, Quiet, Contents;
    RunInv(junk, transit, []);
    if moves == [] {
      NoneGivenBack(junk, transit);
    } else {
      var (before, (t, m)) := (moves[..|moves| - 1], moves[|moves| - 1]);
      AddressesGivenBack(junk, transit, before);
      RunInv(junk, transit, before);
      var (w, handed) := (Perform(Start(junk, transit), before), Handed(Start(junk, transit), before));
      assert Returned(w, |transit.log|, handed);
      if t == DRAINER {
        DrainerReturns(w, |Contents(transit)|, m, |transit.log|, handed);
      } else {
        ReceiverReturns(w, |Contents(transit)|, t, m, |transit.log|, handed);
        assert handed + [] == handed;
      }
    }
  }

  lemma NoneGivenBack(junk: seq<Ptr>, transit: State)
    requires Quiet(transit)
    ensures var w := Start(junk, transit);
            Thinned(GivenBack(w, |transit.log|), [], w.lost)
  {
    assert PcOf(transit, DRAINER) == Idle;
  }

  // ------------------------------------------------------------ the size of a burst

  function Burst(st: Stage): nat {
    match st
    case Collecting(got) => |got|
    case Draining(got) => |got|
    case Giving(got) => |got|
    case Returning(got) => |got|
    case _ => 0
  }

  lemma BurstStep(w: World, u: Tid, m: Move, t: Tid)
    requires Sized(w) && Burst(StageOf(w, t)) <= 20 && (StageOf(w, t).Draining? ==> Burst(StageOf(w, t)) < 20)
    ensures var st := StageOf(Act(w, u, m), t);
            Burst(st) <= 20 && (st.Draining? ==> Burst(st) < 20)
  {
    hide Step, Succeeded;
  }

  /** The drainer never has more than 20 packets in hand. */
  lemma {:induction false} BurstBound(junk: seq<Ptr>, transit: State, moves: Moves, t: Tid)
    requires |junk| >= 2 && |transit.cells| >= 2
    ensures var st := StageOf(Perform(Start(junk, transit), moves), t);
            Burst(st) <= 20 && (st.Draining? ==> Burst(st) < 20)
    decreases |moves|
  {
    if moves != [] {
      var n := |moves| - 1;
      BurstBound(junk, transit, moves[..n], t);
      BurstStep(Perform(Start(junk, transit), moves[..n]), moves[n].0, moves[n].1, t);
      hide Act;
    }
  }
}
