/** The bounded multi-producer multi-consumer queue as a system of steps.

    Every atomic access of push and pull is one step of one thread.  A schedule
    is any sequence of (thread, choice) pairs, so a statement about all schedules
    is a statement about every interleaving of any number of threads.  Accesses
    are sequentially consistent.

    Three fields record the past and are read by no step: `log` (who claimed each
    push position, with which value), `phase` (how far each position has got) and
    `events` (what finished operations returned). */
module MpmcModel {
  import opened Bits

  type Ptr = int
  type Tid = nat

  datatype Cell = Cell(sequence: nat, data: Ptr)

  /** Program points of push and pull; each names the access that comes next. */
  datatype Pc =
    | Idle
    | PushLoadTail(v: Ptr)
    | PushLoadSeq(v: Ptr, pos: nat)
    | PushCas(v: Ptr, pos: nat)
    | PushWrite(v: Ptr, pos: nat)
    | PushPublish(v: Ptr, pos: nat)
    | PullLoadHead
    | PullLoadSeq(pos: nat)
    | PullCas(pos: nat)
    | PullRead(pos: nat)
    | PullRelease(pos: nat, got: Ptr)

  /** What the scheduler decides: which operation an idle thread starts, and
      whether a weak compare-and-swap fails spuriously. */
  datatype Choice = StartPush(v: Ptr) | StartPull | Go(spurious: bool)

  datatype Claim = Claim(owner: Tid, value: Ptr)
  datatype Phase = Writing(t: Tid) | Full | Reading(t: Tid) | Released
  datatype Event =
    | Pushed(t: Tid, pos: nat, v: Ptr)
    | PushFailed(t: Tid, pos: nat)
    | Pulled(t: Tid, pos: nat, v: Ptr)
    | PullFailed(t: Tid, pos: nat)

  datatype State = State(
    cells: seq<Cell>,
    tail: nat,
    head: nat,
    threads: map<Tid, Pc>,
    log: seq<Claim>,
    phase: seq<Phase>,
    events: seq<Event>)

  /** The state after initialisation; the data of a fresh cell is arbitrary. */
  function Init(junk: seq<Ptr>): State {
    State(seq(|junk|, i requires 0 <= i < |junk| => Cell(i, junk[i])), 0, 0, map[], [], [], [])
  }

  function PcOf(s: State, t: Tid): Pc {
    if t in s.threads then s.threads[t] else Idle
  }

  function Goto(s: State, t: Tid, pc: Pc): State {
    s.(threads := s.threads[t := pc])
  }

  function Slot(s: State, pos: nat): nat
    requires |s.cells| >= 1
  {
    pos % |s.cells|
  }

  /** One access by thread t. */
  function Step(s: State, t: Tid, c: Choice): (r: State)
    requires |s.cells| >= 1
    ensures |r.cells| == |s.cells|
  {
    match PcOf(s, t)
    case Idle =>
      (match c
       case StartPush(v) => Goto(s, t, PushLoadTail(v))
       case StartPull => Goto(s, t, PullLoadHead)
       case Go(_) => s)
    case PushLoadTail(v) => Goto(s, t, PushLoadSeq(v, s.tail))
    case PushLoadSeq(v, pos) =>
      var diff := s.cells[Slot(s, pos)].sequence - pos;
      if diff == 0 then Goto(s, t, PushCas(v, pos))
      else if diff < 0 then Goto(s, t, Idle).(events := s.events + [PushFailed(t, pos)])
      else Goto(s, t, PushLoadTail(v))
    case PushCas(v, pos) =>
      if c == Go(true) || s.tail != pos then Goto(s, t, PushLoadSeq(v, s.tail))
      else ClaimPush(s, t, v, pos)
    case PushWrite(v, pos) =>
      Goto(s, t, PushPublish(v, pos)).(cells := s.cells[Slot(s, pos) := s.cells[Slot(s, pos)].(data := v)])
    case PushPublish(v, pos) => Publish(s, t, v, pos)
    case PullLoadHead => Goto(s, t, PullLoadSeq(s.head))
    case PullLoadSeq(pos) =>
      var diff := s.cells[Slot(s, pos)].sequence - (pos + 1);
      if diff == 0 then Goto(s, t, PullCas(pos))
      else if diff < 0 then Goto(s, t, Idle).(events := s.events + [PullFailed(t, pos)])
      else Goto(s, t, PullLoadHead)
    case PullCas(pos) =>
      if c == Go(true) || s.head != pos then Goto(s, t, PullLoadSeq(s.head))
      else ClaimPull(s, t, pos)
    case PullRead(pos) => Goto(s, t, PullRelease(pos, s.cells[Slot(s, pos)].data))
    case PullRelease(pos, got) => Release(s, t, pos, got)
  }

  /** The successful compare-and-swap on the tail. */
  function ClaimPush(s: State, t: Tid, v: Ptr, pos: nat): State {
    Goto(s, t, PushWrite(v, pos)).(
      tail := pos + 1, log := s.log + [Claim(t, v)], phase := s.phase + [Writing(t)])
  }

  /** Storing sequence pos + 1: the item becomes visible and push returns 1. */
  function Publish(s: State, t: Tid, v: Ptr, pos: nat): (r: State)
    requires |s.cells| >= 1
    ensures |r.cells| == |s.cells|
  {
    var cell := s.cells[Slot(s, pos)].(sequence := pos + 1);
    Goto(s, t, Idle).(
      cells := s.cells[Slot(s, pos) := cell],
      phase := if pos < |s.phase| then s.phase[pos := Full] else s.phase,
      events := s.events + [Pushed(t, pos, v)])
  }

  /** The successful compare-and-swap on the head. */
  function ClaimPull(s: State, t: Tid, pos: nat): State {
    Goto(s, t, PullRead(pos)).(
      head := pos + 1,
      phase := if pos < |s.phase| then s.phase[pos := Reading(t)] else s.phase)
  }

  /** Storing sequence pos + size: the cell becomes free and pull returns 1. */
  function Release(s: State, t: Tid, pos: nat, got: Ptr): (r: State)
    requires |s.cells| >= 1
    ensures |r.cells| == |s.cells|
  {
    var cell := s.cells[Slot(s, pos)].(sequence := pos + |s.cells|);
    Goto(s, t, Idle).(
      cells := s.cells[Slot(s, pos) := cell],
      phase := if pos < |s.phase| then s.phase[pos := Released] else s.phase,
      events := s.events + [Pulled(t, pos, got)])
  }

  type Schedule = seq<(Tid, Choice)>

  function Run(s: State, sched: Schedule): (r: State)
    requires |s.cells| >= 1
    ensures |r.cells| == |s.cells|
    decreases |sched|
  {
    if sched == [] then s
    else Step(Run(s, sched[..|sched| - 1]), sched[|sched| - 1].0, sched[|sched| - 1].1)
  }

  // ---------------------------------------------------------------- invariant

  ghost predicate Claimed(ph: Phase) { ph.Reading? || ph.Released? }

  ghost predicate Window(s: State) {
    && |s.cells| >= 2
    && s.head <= s.tail == |s.log| == |s.phase|
    && (forall p :: 0 <= p < s.tail ==> (p < s.head <==> Claimed(s.phase[p])))
    && (forall p :: 0 <= p && p + |s.cells| < s.tail ==> s.phase[p] == Released)
  }

  /** The sequence number a cell must carry, given the phase of its latest position. */
  ghost function SeqFor(ph: Phase, p: nat, size: nat): nat {
    match ph
    case Writing(_) => p
    case Full => p + 1
    case Reading(_) => p + 1
    case Released => p + size
  }

  ghost predicate CellAt(s: State, p: nat)
    requires |s.cells| >= 2 && p < s.tail == |s.log| == |s.phase|
  {
    var cell := s.cells[Slot(s, p)];
    && cell.sequence == SeqFor(s.phase[p], p, |s.cells|)
    && (s.phase[p].Full? || s.phase[p].Reading? ==> cell.data == s.log[p].value)
  }

  ghost predicate CellsOk(s: State)
    requires Window(s)
  {
    && (forall p: nat | p < s.tail <= p + |s.cells| :: CellAt(s, p))
    && (forall q | s.tail <= q < |s.cells| :: s.cells[q].sequence == q)
  }

  ghost predicate PcOk(s: State, t: Tid, pc: Pc)
    requires Window(s)
  {
    match pc
    case Idle => true
    case PushLoadTail(_) => true
    case PushLoadSeq(v, pos) => pos <= s.tail
    case PushCas(v, pos) => pos <= s.tail && (pos == s.tail ==> s.cells[Slot(s, pos)].sequence == pos)
    case PushWrite(v, pos) => pos < s.tail && s.phase[pos] == Writing(t) && s.log[pos] == Claim(t, v)
    case PushPublish(v, pos) =>
      && pos < s.tail && s.phase[pos] == Writing(t) && s.log[pos] == Claim(t, v)
      && s.cells[Slot(s, pos)].data == v
    case PullLoadHead => true
    case PullLoadSeq(pos) => pos <= s.head
    case PullCas(pos) => pos <= s.head && (pos == s.head ==> s.cells[Slot(s, pos)].sequence == pos + 1)
    case PullRead(pos) => pos < s.head && s.phase[pos] == Reading(t)
    case PullRelease(pos, got) => pos < s.head && s.phase[pos] == Reading(t) && got == s.log[pos].value
  }

  ghost predicate Pushing(pc: Pc, p: nat) {
    (pc.PushWrite? || pc.PushPublish?) && pc.pos == p
  }

  ghost predicate Pulling(pc: Pc, p: nat) {
    (pc.PullRead? || pc.PullRelease?) && pc.pos == p
  }

  /** Every position being written or read has the recorded owner, at that position. */
  ghost predicate OwnersOk(s: State)
    requires Window(s)
  {
    forall p | 0 <= p < s.tail ::
      && (s.phase[p].Writing? ==> Pushing(PcOf(s, s.phase[p].t), p))
      && (s.phase[p].Reading? ==> Pulling(PcOf(s, s.phase[p].t), p))
  }

  ghost predicate ThreadsOk(s: State)
    requires Window(s)
  {
    forall t | t in s.threads :: PcOk(s, t, s.threads[t])
  }

  ghost predicate EventOk(s: State, e: Event)
    requires Window(s)
  {
    match e
    case Pushed(t, pos, v) => pos < s.tail && s.log[pos] == Claim(t, v) && !s.phase[pos].Writing?
    case PushFailed(_, pos) => pos <= s.tail
    case Pulled(t, pos, v) => pos < s.tail && s.log[pos].value == v && s.phase[pos] == Released
    case PullFailed(_, pos) => pos <= s.head
  }

  /** An earlier and a later event: positions never repeat, and grow per thread. */
  ghost predicate InOrder(e: Event, f: Event) {
    && (e.Pushed? && f.Pushed? ==> e.pos != f.pos && (e.t == f.t ==> e.pos < f.pos))
    && (e.Pulled? && f.Pulled? ==> e.pos != f.pos && (e.t == f.t ==> e.pos < f.pos))
  }

  /** What a thread is working on lies behind everything it finished. */
  ghost predicate Ahead(e: Event, t: Tid, pc: Pc) {
    && (e.Pushed? && e.t == t && (pc.PushWrite? || pc.PushPublish?) ==> e.pos < pc.pos)
    && (e.Pulled? && e.t == t && (pc.PullRead? || pc.PullRelease?) ==> e.pos < pc.pos)
  }

  ghost predicate EventsOk(s: State)
    requires Window(s)
  {
    && (forall i | 0 <= i < |s.events| :: EventOk(s, s.events[i]))
    && (forall i, j | 0 <= i < j < |s.events| :: InOrder(s.events[i], s.events[j]))
    && (forall i, t | 0 <= i < |s.events| && t in s.threads :: Ahead(s.events[i], t, s.threads[t]))
    && (forall i | 0 <= i < |s.events| && s.events[i].Pulled? :: s.events[i].pos < s.head)
  }

  ghost predicate Inv(s: State) {
    Window(s) && CellsOk(s) && OwnersOk(s) && ThreadsOk(s) && EventsOk(s)
  }

  // ------------------------------------------------------------ cells in view

  /** head <= tail <= head + size. */
  lemma WindowBound(s: State)
    requires Window(s)
    ensures s.head <= s.tail <= s.head + |s.cells|
  {
    if s.head < s.tail {
      assert !Claimed(s.phase[s.head]);
    }
  }

  /** What a push position not yet claimed finds in its cell. */
  lemma TailCell(s: State)
    requires Window(s) && CellsOk(s)
    ensures s.tail < |s.cells| ==> s.cells[Slot(s, s.tail)].sequence == s.tail
    ensures s.tail >= |s.cells| ==>
              var p := s.tail - |s.cells|;
              Slot(s, p) == Slot(s, s.tail) && CellAt(s, p)
  {
    if s.tail >= |s.cells| {
      SlotClash(|s.cells|, s.tail - |s.cells|, s.tail);
    }
  }

  /** Positions in the window sit in different cells. */
  lemma DifferentCells(s: State, p: nat)
    requires Window(s) && p < s.tail <= p + |s.cells|
    ensures forall q: nat | q < s.tail <= q + |s.cells| && q != p :: Slot(s, q) != Slot(s, p)
    ensures Slot(s, p) < s.tail
  {
    forall q: nat | q < s.tail <= q + |s.cells| && q != p
      ensures Slot(s, q) != Slot(s, p)
    {
      if q < p { SlotClash(|s.cells|, q, p); } else { SlotClash(|s.cells|, p, q); }
    }
    if p < |s.cells| {
      SmallMod(p, |s.cells|);
    }
  }

  /** The latest claimed position that shares the cell of pos. */
  lemma {:induction false} Latest(s: State, pos: nat) returns (p: nat)
    requires Window(s) && pos < s.tail
    ensures pos <= p < s.tail <= p + |s.cells| && Slot(s, p) == Slot(s, pos)
    ensures p == pos || p >= pos + |s.cells|
    decreases s.tail - pos
  {
    p := pos;
    if pos + |s.cells| < s.tail {
      SlotClash(|s.cells|, pos, pos + |s.cells|);
      p := Latest(s, pos + |s.cells|);
    }
  }

  // ----------------------------------------------------------- preservation

  lemma InitInv(junk: seq<Ptr>)
    requires |junk| >= 2
    ensures Inv(Init(junk))
  {
  }

  ghost predicate Owning(pc: Pc) {
    pc.PushWrite? || pc.PushPublish? || pc.PullRead? || pc.PullRelease?
  }

  lemma SameCells(s: State, r: State)
    requires Window(s) && CellsOk(s) && Window(r)
    requires r.cells == s.cells && r.log == s.log && r.phase == s.phase
    ensures CellsOk(r)
  {
    forall p: nat | p < r.tail <= p + |r.cells|
      ensures CellAt(r, p)
    {
      assert CellAt(s, p);
    }
  }

  /** A step that moves only its own thread, between points that own no cell. */
  lemma LocalKeeps(s: State, t: Tid, pc: Pc)
    requires Inv(s) && !Owning(PcOf(s, t)) && !Owning(pc) && PcOk(s, t, pc)
    ensures Inv(Goto(s, t, pc))
  {
    SameCells(s, Goto(s, t, pc));
  }

  lemma FailKeeps(s: State, t: Tid, e: Event)
    requires Inv(s) && !Owning(PcOf(s, t))
    requires (e.PushFailed? && e.pos <= s.tail) || (e.PullFailed? && e.pos <= s.head)
    ensures Inv(Goto(s, t, Idle).(events := s.events + [e]))
  {
    SameCells(s, Goto(s, t, Idle).(events := s.events + [e]));
  }

  lemma ClaimPushKeeps(s: State, t: Tid, v: Ptr, pos: nat)
    requires Inv(s) && PcOf(s, t) == PushCas(v, pos) && s.tail == pos
    ensures Inv(ClaimPush(s, t, v, pos))
  {
    var r := ClaimPush(s, t, v, pos);
    TailCell(s);
    if pos >= |s.cells| {
      assert s.phase[pos - |s.cells|] == Released;
    }
    assert Window(r);
    forall p: nat | p < r.tail <= p + |r.cells|
      ensures CellAt(r, p)
    {
      if p < s.tail {
        assert CellAt(s, p);
      }
    }
    forall u | u in r.threads
      ensures PcOk(r, u, r.threads[u])
    {
      if u != t {
        assert PcOk(s, u, s.threads[u]);
      }
    }
  }

  lemma WriteKeeps(s: State, t: Tid, v: Ptr, pos: nat)
    requires Inv(s) && PcOf(s, t) == PushWrite(v, pos)
    ensures Inv(Goto(s, t, PushPublish(v, pos)).(cells := s.cells[Slot(s, pos) := s.cells[Slot(s, pos)].(data := v)]))
  {
    var r := Goto(s, t, PushPublish(v, pos)).(cells := s.cells[Slot(s, pos) := s.cells[Slot(s, pos)].(data := v)]);
    DifferentCells(s, pos);
    forall p: nat | p < r.tail <= p + |r.cells|
      ensures CellAt(r, p)
    {
      assert CellAt(s, p);
    }
    forall u | u in r.threads
      ensures PcOk(r, u, r.threads[u])
    {
      if u != t {
        assert PcOk(s, u, s.threads[u]);
      }
    }
  }

  /** What every store of a sequence number leaves intact for the other threads. */
  lemma StoreKeepsOthers(s: State, r: State, t: Tid, pos: nat, u: Tid)
    requires Inv(s) && Window(r)
    requires pos < s.tail <= pos + |s.cells| && !s.phase[pos].Full? && !s.phase[pos].Released?
    requires r.tail == s.tail && r.head == s.head && r.log == s.log && |r.cells| == |s.cells|
    requires forall p :: 0 <= p < s.tail && p != pos ==> r.phase[p] == s.phase[p]
    requires forall i :: 0 <= i < |s.cells| && i != Slot(s, pos) ==> r.cells[i] == s.cells[i]
    requires s.phase[pos] == Writing(t) || s.phase[pos] == Reading(t)
    requires u != t && u in s.threads
    ensures PcOk(r, u, s.threads[u])
  {
    var pc := s.threads[u];
    assert PcOk(s, u, pc);
    DifferentCells(s, pos);
    TailCell(s);
    assert CellAt(s, pos);
    if pc.PushCas? && pc.pos == s.tail {
      if Slot(s, pos) == Slot(s, s.tail) {
        SlotClash(|s.cells|, pos, s.tail);
      }
    }
    if pc.PullCas? && pc.pos == s.head {
      if s.head < s.tail {
        assert CellAt(s, s.head);
      } else if Slot(s, pos) == Slot(s, s.tail) {
        SlotClash(|s.cells|, pos, s.tail);
      }
    }
  }

  lemma PublishKeeps(s: State, t: Tid, v: Ptr, pos: nat)
    requires Inv(s) && PcOf(s, t) == PushPublish(v, pos)
    ensures Inv(Publish(s, t, v, pos))
  {
    var r := Publish(s, t, v, pos);
    DifferentCells(s, pos);
    assert Window(r);
    forall p: nat | p < r.tail <= p + |r.cells|
      ensures CellAt(r, p)
    {
      assert CellAt(s, p);
    }
    forall u | u in r.threads
      ensures PcOk(r, u, r.threads[u])
    {
      if u != t {
        StoreKeepsOthers(s, r, t, pos, u);
      }
      hide CellAt;
    }
  }

  lemma ClaimPullKeeps(s: State, t: Tid, pos: nat)
    requires Inv(s) && PcOf(s, t) == PullCas(pos) && s.head == pos
    ensures Inv(ClaimPull(s, t, pos))
    ensures pos < s.tail && s.phase[pos] == Full
  {
    HeadIsFull(s, pos);
    var r := ClaimPull(s, t, pos);
    assert Window(r);
    forall p: nat | p < r.tail <= p + |r.cells|
      ensures CellAt(r, p)
    {
      assert CellAt(s, p);
    }
    forall u | u in r.threads
      ensures PcOk(r, u, r.threads[u])
    {
      if u != t {
        assert PcOk(s, u, s.threads[u]);
      }
    }
  }

  /** A cell that carries head + 1 holds a published item. */
  lemma HeadIsFull(s: State, pos: nat)
    requires Inv(s) && s.head == pos && s.cells[Slot(s, pos)].sequence == pos + 1
    ensures pos < s.tail && s.phase[pos] == Full
  {
    TailCell(s);
    if pos < s.tail {
      assert CellAt(s, pos);
    }
  }

  lemma ReadKeeps(s: State, t: Tid, pos: nat)
    requires Inv(s) && PcOf(s, t) == PullRead(pos)
    ensures Inv(Goto(s, t, PullRelease(pos, s.cells[Slot(s, pos)].data)))
    ensures s.cells[Slot(s, pos)].data == s.log[pos].value
  {
    assert CellAt(s, pos);
    var r := Goto(s, t, PullRelease(pos, s.cells[Slot(s, pos)].data));
    SameCells(s, r);
    forall u | u in r.threads
      ensures PcOk(r, u, r.threads[u])
    {
      if u != t {
        assert PcOk(s, u, s.threads[u]);
      }
    }
  }

  lemma ReleaseKeeps(s: State, t: Tid, pos: nat, got: Ptr)
    requires Inv(s) && PcOf(s, t) == PullRelease(pos, got)
    ensures Inv(Release(s, t, pos, got))
  {
    var r := Release(s, t, pos, got);
    DifferentCells(s, pos);
    assert Window(r);
    forall p: nat | p < r.tail <= p + |r.cells|
      ensures CellAt(r, p)
    {
      assert CellAt(s, p);
    }
    forall u | u in r.threads
      ensures PcOk(r, u, r.threads[u])
    {
      if u != t {
        StoreKeepsOthers(s, r, t, pos, u);
      }
      hide CellAt;
    }
  }

  lemma StepKeeps(s: State, t: Tid, c: Choice)
    requires Inv(s)
    ensures Inv(Step(s, t, c))
  {
    if t in s.threads {
      assert PcOk(s, t, s.threads[t]);
    }
    match PcOf(s, t) {
      case Idle =>
        if c.StartPush? {
          LocalKeeps(s, t, PushLoadTail(c.v));
        } else if c.StartPull? {
          LocalKeeps(s, t, PullLoadHead);
        }
      case PushLoadTail(v) => LocalKeeps(s, t, PushLoadSeq(v, s.tail));
      case PushLoadSeq(v, pos) => LoadSeqKeeps(s, t, c);
      case PushCas(v, pos) =>
        if c == Go(true) || s.tail != pos {
          LocalKeeps(s, t, PushLoadSeq(v, s.tail));
        } else {
          ClaimPushKeeps(s, t, v, pos);
        }
      case PushWrite(v, pos) => WriteKeeps(s, t, v, pos);
      case PushPublish(v, pos) => PublishKeeps(s, t, v, pos);
      case PullLoadHead => LocalKeeps(s, t, PullLoadSeq(s.head));
      case PullLoadSeq(pos) => LoadSeqKeeps(s, t, c);
      case PullCas(pos) =>
        if c == Go(true) || s.head != pos {
          LocalKeeps(s, t, PullLoadSeq(s.head));
        } else {
          ClaimPullKeeps(s, t, pos);
        }
      case PullRead(pos) => ReadKeeps(s, t, pos);
      case PullRelease(pos, got) => ReleaseKeeps(s, t, pos, got);
    }
  }

  lemma LoadSeqKeeps(s: State, t: Tid, c: Choice)
    requires Inv(s) && (PcOf(s, t).PushLoadSeq? || PcOf(s, t).PullLoadSeq?) && PcOk(s, t, PcOf(s, t))
    ensures Inv(Step(s, t, c))
  {
    match PcOf(s, t) {
      case PushLoadSeq(v, pos) =>
        var diff := s.cells[Slot(s, pos)].sequence - pos;
        if diff == 0 {
          LocalKeeps(s, t, PushCas(v, pos));
        } else if diff < 0 {
          FailKeeps(s, t, PushFailed(t, pos));
        } else {
          LocalKeeps(s, t, PushLoadTail(v));
        }
      case PullLoadSeq(pos) =>
        var diff := s.cells[Slot(s, pos)].sequence - (pos + 1);
        if diff == 0 {
          LocalKeeps(s, t, PullCas(pos));
        } else if diff < 0 {
          FailKeeps(s, t, PullFailed(t, pos));
        } else {
          LocalKeeps(s, t, PullLoadHead);
        }
    }
  }

  /** The invariant holds after every schedule. */
  lemma {:induction false} RunKeeps(s: State, sched: Schedule)
    requires Inv(s)
    ensures Inv(Run(s, sched))
    decreases |sched|
  {
    if sched != [] {
      var n := |sched| - 1;
      RunKeeps(s, sched[..n]);
      StepKeeps(Run(s, sched[..n]), sched[n].0, sched[n].1);
    }
  }
}
