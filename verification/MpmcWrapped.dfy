/** The queue with the counters the code has: words of 64 bits that wrap around.  Its
    steps are those of MpmcModel as long as no thread that is trying a position lags
    behind the tail by almost 2^63. */
module MpmcWrapped {
  import opened Bits
  import opened MpmcModel
  import opened MpmcTheorems

  /** What the threads share, and where each of them is; every counter is a word. */
  datatype Words = Words(cells: seq<Cell>, tail: nat, head: nat, threads: map<Tid, Pc>)

  function At(w: Words, t: Tid): Pc {
    if t in w.threads then w.threads[t] else Idle
  }

  function Move(w: Words, t: Tid, pc: Pc): Words {
    w.(threads := w.threads[t := pc])
  }

  /** seq - pos in signed 64-bit arithmetic. */
  function Difference(sequence: nat, pos: nat): int {
    Signed(U64(sequence - pos))
  }

  function Index(w: Words, pos: nat): nat
    requires |w.cells| >= 1
  {
    pos % |w.cells|
  }

  function Mark(w: Words, pos: nat, sequence: nat): seq<Cell>
    requires |w.cells| >= 1
  {
    w.cells[Index(w, pos) := w.cells[Index(w, pos)].(sequence := sequence)]
  }

  /** One access by thread t. */
  function WordStep(w: Words, t: Tid, c: Choice): (r: Words)
    requires |w.cells| >= 1
    ensures |r.cells| == |w.cells|
  {
    match At(w, t)
    case Idle =>
      (match c
       case StartPush(v) => Move(w, t, PushLoadTail(v))
       case StartPull => Move(w, t, PullLoadHead)
       case Go(_) => w)
    case PushLoadTail(v) => Move(w, t, PushLoadSeq(v, w.tail))
    case PushLoadSeq(v, pos) =>
      var diff := Difference(w.cells[Index(w, pos)].sequence, pos);
      Move(w, t, if diff == 0 then PushCas(v, pos) else if diff < 0 then Idle else PushLoadTail(v))
    case PushCas(v, pos) =>
      if c == Go(true) || w.tail != pos then Move(w, t, PushLoadSeq(v, w.tail))
      else Move(w, t, PushWrite(v, pos)).(tail := U64(pos + 1))
    case PushWrite(v, pos) =>
      Move(w, t, PushPublish(v, pos)).(cells := w.cells[Index(w, pos) := w.cells[Index(w, pos)].(data := v)])
    case PushPublish(v, pos) => Move(w, t, Idle).(cells := Mark(w, pos, U64(pos + 1)))
    case PullLoadHead => Move(w, t, PullLoadSeq(w.head))
    case PullLoadSeq(pos) =>
      var diff := Difference(w.cells[Index(w, pos)].sequence, pos + 1);
      Move(w, t, if diff == 0 then PullCas(pos) else if diff < 0 then Idle else PullLoadHead)
    case PullCas(pos) =>
      if c == Go(true) || w.head != pos then Move(w, t, PullLoadSeq(w.head))
      else Move(w, t, PullRead(pos)).(head := U64(pos + 1))
    case PullRead(pos) => Move(w, t, PullRelease(pos, w.cells[Index(w, pos)].data))
    case PullRelease(pos, _) => Move(w, t, Idle).(cells := Mark(w, pos, U64(pos + |w.cells|)))
  }

  function WordRun(w: Words, sched: Schedule): (r: Words)
    requires |w.cells| >= 1
    ensures |r.cells| == |w.cells|
    decreases |sched|
  {
    if sched == [] then w
    else WordStep(WordRun(w, sched[..|sched| - 1]), sched[|sched| - 1].0, sched[|sched| - 1].1)
  }

  // -------------------------------------------------------------- the wrapping

  function WrapPc(pc: Pc): Pc {
    match pc
    case Idle => pc
    case PushLoadTail(_) => pc
    case PushLoadSeq(v, pos) => PushLoadSeq(v, U64(pos))
    case PushCas(v, pos) => PushCas(v, U64(pos))
    case PushWrite(v, pos) => PushWrite(v, U64(pos))
    case PushPublish(v, pos) => PushPublish(v, U64(pos))
    case PullLoadHead => pc
    case PullLoadSeq(pos) => PullLoadSeq(U64(pos))
    case PullCas(pos) => PullCas(U64(pos))
    case PullRead(pos) => PullRead(U64(pos))
    case PullRelease(pos, got) => PullRelease(U64(pos), got)
  }

  function WrapCells(cells: seq<Cell>): (r: seq<Cell>)
    ensures |r| == |cells|
  {
    seq(|cells|, k requires 0 <= k < |cells| => cells[k].(sequence := U64(cells[k].sequence)))
  }

  /** A state of the model with every counter cut to a word. */
  function Wrap(s: State): Words {
    Words(WrapCells(s.cells), U64(s.tail), U64(s.head), map t | t in s.threads :: WrapPc(s.threads[t]))
  }

  /** A thread that is trying a position does not lag by almost 2^63. */
  predicate Near(s: State, t: Tid) {
    var pc := PcOf(s, t);
    pc.PushLoadSeq? || pc.PushCas? || pc.PullLoadSeq? || pc.PullCas? ==> s.tail + |s.cells| - pc.pos < TWO_63
  }

  /** The queue's sizes: powers of two that a word can count. */
  ghost predicate GoodSize(size: nat) {
    2 <= size < TWO_63 && IsPow2(size)
  }

  // ----------------------------------------------------------- arithmetic facts

  lemma SizeDivides(size: nat)
    requires GoodSize(size)
    ensures TWO_64 == size * (TWO_64 / size)
  {
    var k: nat :| size == Pow2(k);
    TwoTo64();
    if k > 64 {
      Monotone(64, k);
    }
    Divides(k, 64);
  }

  /** The masked index of a wrapped position is that of the position. */
  lemma IndexOfWord(pos: nat, size: nat)
    requires GoodSize(size)
    ensures U64(pos) % size == pos % size
  {
    SizeDivides(size);
    ModOfMod(pos, TWO_64, size);
  }

  lemma TurnFree(d: int, m: int)
    ensures U64(d + TWO_64 * m) == U64(d)
  {
    var (q, r) := (d / TWO_64, U64(d));
    DivModUnique(d + TWO_64 * m, TWO_64, q + m, r);
  }

  lemma SignedWord(d: int)
    requires -TWO_63 <= d < TWO_63
    ensures Signed(U64(d)) == d
  {
    if d < 0 {
      DivModUnique(d, TWO_64, -1, d + TWO_64);
    } else {
      SmallMod(d, TWO_64);
    }
  }

  /** The signed difference of words is that of the counters, and of their successors. */
  lemma DifferenceIs(sequence: nat, pos: nat)
    requires -TWO_63 < sequence - pos < TWO_63
    ensures Difference(U64(sequence), U64(pos)) == sequence - pos
    ensures Difference(U64(sequence), U64(pos) + 1) == sequence - (pos + 1)
  {
    var (d, m) := (sequence - pos, pos / TWO_64 - sequence / TWO_64);
    assert U64(sequence) - U64(pos) == d + TWO_64 * m;
    TurnFree(d, m);
    TurnFree(d - 1, m);
    SignedWord(d);
    SignedWord(d - 1);
    hide U64, Signed;
  }

  lemma NextWord(x: nat, d: nat)
    ensures U64(U64(x) + d) == U64(x + d)
  {
  }

  lemma SameWord(x: nat, y: nat)
    requires y <= x < y + TWO_64
    ensures U64(x) == U64(y) <==> x == y
  {
  }

  // ------------------------------------------------------------- the simulation

  /** The sequence in the cell of a position that a thread may try. */
  lemma SequenceNear(s: State, pos: nat)
    requires Inv(s) && pos <= s.tail
    ensures pos <= s.cells[Slot(s, pos)].sequence + |s.cells|
    ensures s.cells[Slot(s, pos)].sequence <= s.tail + |s.cells|
  {
    if pos == s.tail {
      TailCell(s);
    } else {
      var p := Latest(s, pos);
      assert CellAt(s, p);
    }
  }

  lemma WrapGoto(s: State, t: Tid, pc: Pc)
    ensures Wrap(Goto(s, t, pc)) == Move(Wrap(s), t, WrapPc(pc))
  {
    assert Wrap(Goto(s, t, pc)).threads == Wrap(s).threads[t := WrapPc(pc)];
  }

  lemma WrapAt(s: State, t: Tid)
    ensures At(Wrap(s), t) == WrapPc(PcOf(s, t))
  {
  }

  lemma WrapCell(s: State, pos: nat)
    requires GoodSize(|s.cells|)
    ensures var (w, k) := (Wrap(s), Slot(s, pos));
            && |w.cells| == |s.cells| && Index(w, U64(pos)) == k && k < |s.cells|
            && w.cells[k] == s.cells[k].(sequence := U64(s.cells[k].sequence))
  {
    IndexOfWord(pos, |s.cells|);
  }

  lemma LoadPushSimulates(s: State, t: Tid, c: Choice)
    requires Inv(s) && GoodSize(|s.cells|) && Near(s, t) && PcOf(s, t).PushLoadSeq?
    ensures Wrap(Step(s, t, c)) == WordStep(Wrap(s), t, c)
  {
    var pc := PcOf(s, t);
    assert PcOk(s, t, s.threads[t]);
    SequenceNear(s, pc.pos);
    var diff := s.cells[Slot(s, pc.pos)].sequence - pc.pos;
    DifferenceIs(s.cells[Slot(s, pc.pos)].sequence, pc.pos);
    WrapCell(s, pc.pos);
    WrapAt(s, t);
    hide Inv, GoodSize, U64, Difference, Index, Slot, Near;
    WrapGoto(s, t, if diff == 0 then PushCas(pc.v, pc.pos) else if diff < 0 then Idle else PushLoadTail(pc.v));
  }

  lemma LoadPullSimulates(s: State, t: Tid, c: Choice)
    requires Inv(s) && GoodSize(|s.cells|) && Near(s, t) && PcOf(s, t).PullLoadSeq?
    ensures Wrap(Step(s, t, c)) == WordStep(Wrap(s), t, c)
  {
    var pc := PcOf(s, t);
    assert PcOk(s, t, s.threads[t]);
    SequenceNear(s, pc.pos);
    var diff := s.cells[Slot(s, pc.pos)].sequence - (pc.pos + 1);
    DifferenceIs(s.cells[Slot(s, pc.pos)].sequence, pc.pos);
    WrapCell(s, pc.pos);
    WrapAt(s, t);
    hide Inv, GoodSize, U64, Difference, Index, Slot, Near;
    WrapGoto(s, t, if diff == 0 then PullCas(pc.pos) else if diff < 0 then Idle else PullLoadHead);
  }

  /** The compare-and-swap finds the words equal exactly when the counters are. */
  lemma CasSimulates(s: State, t: Tid, c: Choice)
    requires Inv(s) && GoodSize(|s.cells|) && Near(s, t) && (PcOf(s, t).PushCas? || PcOf(s, t).PullCas?)
    ensures Wrap(Step(s, t, c)) == WordStep(Wrap(s), t, c)
  {
    var pc := PcOf(s, t);
    assert PcOk(s, t, s.threads[t]);
    SameWord(if pc.PushCas? then s.tail else s.head, pc.pos);
    NextWord(pc.pos, 1);
    WrapAt(s, t);
    hide Inv, GoodSize, U64;
    if pc.PushCas? {
      WrapGoto(s, t, if c == Go(true) || s.tail != pc.pos then PushLoadSeq(pc.v, s.tail) else PushWrite(pc.v, pc.pos));
    } else {
      WrapGoto(s, t, if c == Go(true) || s.head != pc.pos then PullLoadSeq(s.head) else PullRead(pc.pos));
    }
  }

  /** Reads and stores go to the same cell and store the same words. */
  lemma CellSimulates(s: State, t: Tid, c: Choice)
    requires GoodSize(|s.cells|) && Owning(PcOf(s, t))
    ensures Wrap(Step(s, t, c)) == WordStep(Wrap(s), t, c)
  {
    var (pc, r) := (PcOf(s, t), Step(s, t, c));
    WrapCell(s, pc.pos);
    WrapAt(s, t);
    NextWord(pc.pos, 1);
    NextWord(pc.pos, |s.cells|);
    WrapGoto(s, t, PcOf(r, t));
    hide GoodSize, U64, Index, Slot;
    assert Wrap(r).cells == WordStep(Wrap(s), t, c).cells;
    assert Wrap(r).threads == WordStep(Wrap(s), t, c).threads;
  }

  lemma LocalSimulates(s: State, t: Tid, c: Choice)
    requires |s.cells| >= 1
    requires PcOf(s, t).Idle? || PcOf(s, t).PushLoadTail? || PcOf(s, t).PullLoadHead?
    ensures Wrap(Step(s, t, c)) == WordStep(Wrap(s), t, c)
  {
    WrapAt(s, t);
    WrapGoto(s, t, PcOf(Step(s, t, c), t));
    hide U64;
  }

  /** Every access of a thread that does not lag by almost 2^63 is the model's. */
  lemma StepSimulates(s: State, t: Tid, c: Choice)
    requires Inv(s) && GoodSize(|s.cells|) && Near(s, t)
    ensures Wrap(Step(s, t, c)) == WordStep(Wrap(s), t, c)
  {
    hide Inv, Step, WordStep, Wrap, GoodSize, Near;
    match PcOf(s, t) {
      case PushLoadSeq(_, _) => LoadPushSimulates(s, t, c);
      case PullLoadSeq(_) => LoadPullSimulates(s, t, c);
      case PushCas(_, _) => CasSimulates(s, t, c);
      case PullCas(_) => CasSimulates(s, t, c);
      case Idle => SizeAtLeast(s); LocalSimulates(s, t, c);
      case PushLoadTail(_) => SizeAtLeast(s); LocalSimulates(s, t, c);
      case PullLoadHead => SizeAtLeast(s); LocalSimulates(s, t, c);
      case _ => CellSimulates(s, t, c);
    }
  }

  lemma SizeAtLeast(s: State)
    requires GoodSize(|s.cells|)
    ensures |s.cells| >= 2
  {
  }

  /** No thread makes an access of this schedule while it lags by almost 2^63. */
  predicate AlwaysNear(s: State, sched: Schedule)
    requires |s.cells| >= 1
    decreases |sched|
  {
    sched == [] ||
    var before := sched[..|sched| - 1];
    AlwaysNear(s, before) && Near(Run(s, before), sched[|sched| - 1].0)
  }

  /** In every such schedule the code's words are the model's counters, cut to 64 bits:
      what holds of the model's runs holds of the code's. */
  lemma {:induction false} RunSimulates(junk: seq<Ptr>, sched: Schedule)
    requires GoodSize(|junk|) && AlwaysNear(Init(junk), sched)
    ensures Wrap(Run(Init(junk), sched)) == WordRun(Wrap(Init(junk)), sched)
  {
    if sched != [] {
      var before := sched[..|sched| - 1];
      RunSimulates(junk, before);
      InitInv(junk);
      RunKeeps(Init(junk), before);
      hide Inv, Step, WordStep, Wrap, Near;
      StepSimulates(Run(Init(junk), before), sched[|sched| - 1].0, sched[|sched| - 1].1);
    }
  }

  /** The words of a new queue. */
  lemma InitWords(junk: seq<Ptr>)
    requires GoodSize(|junk|)
    ensures var w := Wrap(Init(junk));
            && w.tail == w.head == 0 && w.threads == map[]
            && forall k | 0 <= k < |junk| :: w.cells[k] == Cell(k, junk[k])
  {
  }
}
