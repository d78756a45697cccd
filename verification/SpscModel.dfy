/** The single-producer single-consumer ring as a system of steps of two threads.

    The indices are the code's own: unsigned, running free modulo 2^32, masked where
    the ring is accessed.  Every access to shared memory is one step; a schedule is any
    sequence of moves of the two threads.  Accesses are sequentially consistent.

    The fields ph, pt, ch, ct (the same indices without the wrap-around), `log` (the
    objects of all claimed enqueues), `enqueued`, `dequeued` and `events` record the
    past and are read by no step. */
module SpscModel {
  import opened Bits

  type Ptr = int

  datatype ProducerPc =
    | PIdle
    | PIsFull(obj: Ptr)
    | PLoad(objs: seq<Ptr>, checked: bool)
    | PClaim(objs: seq<Ptr>, head: nat, free: nat)
    | PCopy(objs: seq<Ptr>, head: nat, free: nat, i: nat)

  datatype ConsumerPc =
    | CIdle
    | CIsEmpty
    | CLoad(n: nat, checked: bool)
    | CClaim(n: nat, head: nat)
    | CCopy(n: nat, head: nat, got: seq<Ptr>)

  /** What an idle thread may start: a plain call, or the callers' pattern of a check
      followed by a call whose result is ignored. */
  datatype Move =
    | Enqueue(objs: seq<Ptr>)
    | EnqueueUnlessFull(obj: Ptr)
    | Dequeue(n: nat)
    | DequeueUnlessEmpty
    | ProducerGoes
    | ConsumerGoes

  datatype Event =
    | Enqueued(n: nat)
    | QuotaExceeded
    | NoRoom(checked: bool)
    | FoundFull
    | Dequeued(n: nat)
    | NoEntry(checked: bool)
    | FoundEmpty

  datatype State = State(
    watermark: nat, mask: nat, ring: seq<Ptr>,
    prodHead: nat, prodTail: nat, consHead: nat, consTail: nat,
    producer: ProducerPc, consumer: ConsumerPc,
    ph: nat, pt: nat, ch: nat, ct: nat,
    log: seq<Ptr>, enqueued: seq<Ptr>, dequeued: seq<Ptr>, events: seq<Event>)

  /** ringbuf_init on a table with arbitrary contents. */
  function Init(junk: seq<Ptr>): State
    requires |junk| >= 1
  {
    State(|junk|, |junk| - 1, junk, 0, 0, 0, 0, PIdle, CIdle, 0, 0, 0, 0, [], [], [], [])
  }

  /** ringbuf_is_full. */
  predicate IsFull(mask: nat, prodTail: nat, consTail: nat) {
    And(U32(consTail - prodTail - 1), mask) == 0
  }

  /** The room that the producer computes. */
  function FreeEntries(mask: nat, prodHead: nat, consTail: nat): nat {
    U32(mask + consTail - prodHead)
  }

  /** Whether the enqueue that found `free` entries reports an exceeded quota. */
  predicate OverQuota(mask: nat, free: nat, n: nat, watermark: nat) {
    U32(U32(mask + 1 - free) + n) > watermark
  }

  /** The slot of an index. */
  function Slot(mask: nat, index: int): nat {
    And(U32(index), mask)
  }

  function Store(ring: seq<Ptr>, k: nat, x: Ptr): (r: seq<Ptr>)
    ensures |r| == |ring|
  {
    if k < |ring| then ring[k := x] else ring
  }

  function Load(ring: seq<Ptr>, k: nat): Ptr {
    if k < |ring| then ring[k] else 0
  }

  function ProducerStep(s: State): State {
    match s.producer
    case PIdle => s
    case PIsFull(obj) =>
      if IsFull(s.mask, s.prodTail, s.consTail)
      then s.(producer := PIdle, events := s.events + [FoundFull])
      else s.(producer := PLoad([obj], true))
    case PLoad(objs, checked) =>
      var free := FreeEntries(s.mask, s.prodHead, s.consTail);
      if |objs| > free then s.(producer := PIdle, events := s.events + [NoRoom(checked)])
      else s.(producer := PClaim(objs, s.prodHead, free))
    case PClaim(objs, head, free) =>
      s.(producer := PCopy(objs, head, free, 0), prodHead := U32(head + |objs|),
         ph := s.ph + |objs|, log := s.log + objs)
    case PCopy(objs, head, free, i) =>
      if i < |objs| then
        s.(producer := PCopy(objs, head, free, i + 1), ring := Store(s.ring, Slot(s.mask, head + i), objs[i]))
      else
        s.(producer := PIdle, prodTail := U32(head + |objs|), pt := s.pt + |objs|, enqueued := s.enqueued + objs,
           events := s.events +
             [if OverQuota(s.mask, free, |objs|, s.watermark) then QuotaExceeded else Enqueued(|objs|)])
  }

  function ConsumerStep(s: State): State {
    match s.consumer
    case CIdle => s
    case CIsEmpty =>
      if s.consTail == s.prodTail
      then s.(consumer := CIdle, events := s.events + [FoundEmpty])
      else s.(consumer := CLoad(1, true))
    case CLoad(n, checked) =>
      if n > U32(s.prodTail - s.consHead) then s.(consumer := CIdle, events := s.events + [NoEntry(checked)])
      else s.(consumer := CClaim(n, s.consHead))
    case CClaim(n, head) =>
      s.(consumer := CCopy(n, head, []), consHead := U32(head + n), ch := s.ch + n)
    case CCopy(n, head, got) =>
      if |got| < n then
        s.(consumer := CCopy(n, head, got + [Load(s.ring, Slot(s.mask, head + |got|))]))
      else
        s.(consumer := CIdle, consTail := U32(head + n), ct := s.ct + n, dequeued := s.dequeued + got,
           events := s.events + [Dequeued(n)])
  }

  /** One move; a thread starts a call only when idle, with a 32-bit count. */
  function Step(s: State, m: Move): State {
    match m
    case ProducerGoes => ProducerStep(s)
    case ConsumerGoes => ConsumerStep(s)
    case Enqueue(objs) => if s.producer.PIdle? && |objs| < TWO_32 then s.(producer := PLoad(objs, false)) else s
    case EnqueueUnlessFull(obj) => if s.producer.PIdle? then s.(producer := PIsFull(obj)) else s
    case Dequeue(n) => if s.consumer.CIdle? && n < TWO_32 then s.(consumer := CLoad(n, false)) else s
    case DequeueUnlessEmpty => if s.consumer.CIdle? then s.(consumer := CIsEmpty) else s
  }

  function Run(s: State, moves: seq<Move>): State {
    if moves == [] then s
    else Step(Run(s, moves[..|moves| - 1]), moves[|moves| - 1])
  }

  // ---------------------------------------------------------------- invariant

  /** Ring sizes: a power of two that divides 2^32. */
  ghost predicate GoodSize(size: nat) {
    size >= 2 && exists k: nat :: k < 32 && size == Pow2(k)
  }

  ghost predicate Shape(s: State) {
    && GoodSize(|s.ring|) && s.mask == |s.ring| - 1 && s.watermark == |s.ring|
    && s.prodHead == U32(s.ph) && s.prodTail == U32(s.pt)
    && s.consHead == U32(s.ch) && s.consTail == U32(s.ct)
  }

  /** The order of the unwrapped indices, in every state. */
  ghost predicate Order(s: State) {
    s.ct <= s.ch <= s.pt <= s.ph <= s.ct + s.mask
  }

  ghost predicate ProducerOk(s: State) {
    match s.producer
    case PIdle => s.pt == s.ph
    case PIsFull(_) => s.pt == s.ph
    case PLoad(objs, checked) => s.pt == s.ph && (checked ==> |objs| == 1 && s.ph < s.ct + s.mask)
    case PClaim(objs, head, free) =>
      s.pt == s.ph && head == U32(s.ph) && |objs| <= free <= s.mask && s.ph + free <= s.ct + s.mask
    case PCopy(objs, head, free, i) =>
      && head == U32(s.pt) && i <= |objs| <= free <= s.mask && s.ph == s.pt + |objs|
      && s.pt <= |s.log| && s.log[s.pt..] == objs
  }

  ghost predicate ConsumerOk(s: State) {
    match s.consumer
    case CIdle => s.ch == s.ct
    case CIsEmpty => s.ch == s.ct
    case CLoad(n, checked) => s.ch == s.ct && (checked ==> n == 1 && s.ct < s.pt)
    case CClaim(n, head) => s.ch == s.ct && head == U32(s.ch) && s.ch + n <= s.pt
    case CCopy(n, head, got) =>
      && head == U32(s.ct) && s.ch == s.ct + n && |got| <= n
      && s.ct + |got| <= |s.log| && got == s.log[s.ct..s.ct + |got|]
  }

  /** The positions whose objects are in the ring. */
  ghost function Written(s: State): nat {
    s.pt + (if s.producer.PCopy? then s.producer.i else 0)
  }

  ghost predicate Contents(s: State)
    requires |s.ring| >= 1 && Written(s) <= |s.log|
  {
    forall p: nat | s.ct <= p < Written(s) :: s.ring[p % |s.ring|] == s.log[p]
  }

  ghost predicate Inv(s: State) {
    && Shape(s) && Order(s) && |s.log| == s.ph && ProducerOk(s) && ConsumerOk(s) && Contents(s)
    && s.enqueued == s.log[..s.pt] && s.dequeued == s.log[..s.ct]
    && QuotaExceeded !in s.events && NoRoom(true) !in s.events && NoEntry(true) !in s.events
  }

  // --------------------------------------------------------- modular arithmetic

  lemma Turns(size: nat)
    requires GoodSize(size)
    ensures TWO_32 == size * (TWO_32 / size)
  {
    var k: nat :| k < 32 && size == Pow2(k);
    TwoTo32();
    Divides(k, 32);
    hide *;
  }

  lemma SlotIs(mask: nat, x: int)
    ensures Slot(mask, x) == And(U32(x), mask)
  {
  }

  /** Wrapping at 2^32 does not change the remainder modulo a ring size. */
  lemma WrapThenMask(x: int, size: nat)
    requires GoodSize(size)
    ensures Slot(size - 1, x) == x % size
  {
    var k: nat :| k < 32 && size == Pow2(k);
    Turns(size);
    ModOfMod(x, TWO_32, size);
    MaskIsMod(U32(x), k);
    hide *;
    assert And(U32(x), size - 1) == x % size;
    assert Slot(size - 1, x) == And(U32(x), size - 1) by {
      SlotIs(size - 1, x);
    }
  }

  /** The slot of the j-th index after a wrapped one. */
  lemma SlotAfter(size: nat, p: nat, head: nat, j: nat)
    requires GoodSize(size) && head == U32(p)
    ensures Slot(size - 1, head + j) == (p + j) % size
  {
    WrapSum(p, j);
    WrapThenMask(p + j, size);
  }

  lemma WrapSum(x: int, y: int)
    ensures U32(U32(x) + y) == U32(x + y)
  {
    var q := x / TWO_32;
    assert x + y == TWO_32 * q + (U32(x) + y);
    var (r, t) := (U32(x) + y, (U32(x) + y) / TWO_32);
    DivModUnique(x + y, TWO_32, q + t, r % TWO_32);
  }

  /** A difference of wrapped indices is the difference of the indices whenever that
      fits 32 bits. */
  lemma WrapDifference(c: int, x: nat, y: nat)
    requires 0 <= c + x - y < TWO_32
    ensures U32(c + U32(x) - U32(y)) == c + x - y
  {
    var (p, q) := (x / TWO_32, y / TWO_32);
    DivModUnique(c + U32(x) - U32(y), TWO_32, q - p, c + x - y);
  }

  lemma SizeBound(size: nat)
    requires GoodSize(size)
    ensures 2 * size <= TWO_32
  {
    var k: nat :| k < 32 && size == Pow2(k);
    Monotone(k, 31);
    TwoTo32();
  }

  // ------------------------------------------------------------ preservation

  lemma InitInv(junk: seq<Ptr>)
    requires GoodSize(|junk|)
    ensures Inv(Init(junk))
  {
  }

  /** The room computed from wrapped indices is the room there is. */
  lemma FreeIsExact(s: State)
    requires Shape(s) && Order(s)
    ensures FreeEntries(s.mask, s.prodHead, s.consTail) == s.mask - (s.ph - s.ct)
  {
    SizeBound(|s.ring|);
    WrapDifference(s.mask, s.ct, s.ph);
  }

  lemma EntriesAreExact(s: State)
    requires Shape(s) && Order(s)
    ensures U32(s.prodTail - s.consHead) == s.pt - s.ch
  {
    SizeBound(|s.ring|);
    WrapDifference(0, s.pt, s.ch);
  }

  /** The producer's own view of "full". */
  lemma FullIsExact(s: State)
    requires Shape(s) && Order(s)
    ensures IsFull(s.mask, s.prodTail, s.consTail) <==> s.pt - s.ct == s.mask
  {
    FullArithmetic(|s.ring|, s.pt, s.ct);
  }

  lemma FullArithmetic(size: nat, pt: nat, ct: nat)
    requires GoodSize(size) && ct <= pt < ct + size
    ensures IsFull(size - 1, U32(pt), U32(ct)) <==> pt - ct == size - 1
  {
    var y := U32(ct) - U32(pt) - 1;
    var (m, room) := (pt / TWO_32 - ct / TWO_32, size - 1 - (pt - ct));
    assert y == TWO_32 * m - size + room;
    Turns(size);
    WrapThenMask(y, size);
    SlotIs(size - 1, y);
    TurnsAway(y, size, TWO_32 / size, m, room);
    hide *;
    FullIs(size - 1, U32(pt), U32(ct));
  }

  lemma FullIs(mask: nat, prodTail: nat, consTail: nat)
    ensures IsFull(mask, prodTail, consTail) <==> And(U32(consTail - prodTail - 1), mask) == 0
  {
  }

  lemma TurnsAway(y: int, size: nat, q: int, m: int, room: nat)
    requires room < size && TWO_32 == size * q && y == TWO_32 * m - size + room
    ensures y % size == room
  {
    assert size * q * m == size * (q * m);
    assert size * (q * m - 1) == size * (q * m) - size;
    hide *;
    DivModUnique(y, size, q * m - 1, room);
  }

  lemma CheckFullKeeps(s: State)
    requires Inv(s) && s.producer.PIsFull?
    ensures Inv(ProducerStep(s))
    ensures ProducerStep(s).producer.PIdle? <==> s.pt - s.ct == s.mask
  {
    FullIsExact(s);
    hide IsFull, GoodSize;
  }

  lemma LoadKeeps(s: State)
    requires Inv(s) && s.producer.PLoad?
    ensures Inv(ProducerStep(s))
    ensures ProducerStep(s).producer.PIdle? <==> |s.producer.objs| > s.mask - (s.ph - s.ct)
    ensures s.producer.checked ==> ProducerStep(s).producer.PClaim?
  {
    FreeIsExact(s);
    hide FreeEntries, GoodSize;
  }

  lemma ClaimKeeps(s: State)
    requires Inv(s) && s.producer.PClaim?
    ensures Inv(ProducerStep(s))
  {
    WrapSum(s.ph, |s.producer.objs|);
    hide U32, GoodSize;
    var (objs, r) := (s.producer.objs, ProducerStep(s));
    assert r.log[s.pt..] == objs;
    assert forall p: nat | p < s.ph :: r.log[p] == s.log[p];
    assert r.log[..s.pt] == s.log[..s.pt] && r.log[..s.ct] == s.log[..s.ct];
  }

  /** The slot being written is no slot that the consumer may still read. */
  lemma FreshSlot(s: State, q: nat)
    requires Inv(s) && s.producer.PCopy? && s.producer.i < |s.producer.objs|
    requires s.ct <= q < Written(s)
    ensures Slot(s.mask, s.producer.head + s.producer.i) == Written(s) % |s.ring|
    ensures Slot(s.mask, s.producer.head + s.producer.i) != q % |s.ring|
  {
    SlotAfter(|s.ring|, s.pt, s.producer.head, s.producer.i);
    SlotClash(|s.ring|, q, Written(s));
  }

  lemma StoreKeeps(s: State)
    requires Inv(s) && s.producer.PCopy? && s.producer.i < |s.producer.objs|
    ensures Inv(ProducerStep(s))
  {
    SlotAfter(|s.ring|, s.pt, s.producer.head, s.producer.i);
    var (r, w, k) := (ProducerStep(s), Written(s), Slot(s.mask, s.producer.head + s.producer.i));
    assert k == w % |s.ring| && w < |s.log| && s.log[w] == s.producer.objs[s.producer.i] by {
      assert s.log[s.pt..][s.producer.i] == s.log[w];
    }
    hide Slot, U32, GoodSize;
    forall p: nat | s.ct <= p < w + 1
      ensures r.ring[p % |s.ring|] == s.log[p]
    {
      if p < w {
        FreshSlot(s, p);
      }
    }
  }

  /** An accepted enqueue never exceeds the watermark that ringbuf_init sets. */
  lemma NeverOverQuota(s: State, free: nat, n: nat)
    requires Shape(s) && n <= free <= s.mask
    ensures !OverQuota(s.mask, free, n, s.watermark)
  {
    WithinQuota(|s.ring|, free, n);
  }

  /** With any watermark the quota is exceeded exactly when the objects that were in the
      ring, one more for the slot that stays empty, and the new ones are more than that. */
  lemma QuotaIff(size: nat, free: nat, n: nat, watermark: nat)
    requires GoodSize(size) && n <= free < size
    ensures OverQuota(size - 1, free, n, watermark) <==> (size - 1 - free) + 1 + n > watermark
  {
    SizeBound(size);
    SmallMod(size - free, TWO_32);
    SmallMod(size - free + n, TWO_32);
  }

  lemma WithinQuota(size: nat, free: nat, n: nat)
    requires GoodSize(size) && n <= free < size
    ensures !OverQuota(size - 1, free, n, size)
  {
    QuotaIff(size, free, n, size);
    hide OverQuota, GoodSize;
  }

  lemma PublishKeeps(s: State)
    requires Inv(s) && s.producer.PCopy? && s.producer.i == |s.producer.objs|
    ensures Inv(ProducerStep(s))
  {
    var (objs, r) := (s.producer.objs, ProducerStep(s));
    WrapSum(s.pt, |objs|);
    NeverOverQuota(s, s.producer.free, |objs|);
    hide U32, GoodSize, OverQuota;
    assert s.log[..s.pt] + s.log[s.pt..] == s.log == s.log[..s.ph];
  }

  lemma ProducerKeeps(s: State)
    requires Inv(s)
    ensures Inv(ProducerStep(s))
  {
    match s.producer {
      case PIdle =>
      case PIsFull(_) => CheckFullKeeps(s);
      case PLoad(_, _) => LoadKeeps(s);
      case PClaim(_, _, _) => ClaimKeeps(s);
      case PCopy(objs, _, _, i) =>
        if i < |objs| {
          StoreKeeps(s);
        } else {
          PublishKeeps(s);
        }
    }
  }

  /** The consumer's own view of "empty". */
  lemma EmptyIsExact(s: State)
    requires Shape(s) && Order(s)
    ensures s.consTail == s.prodTail <==> s.pt == s.ct
  {
    SizeBound(|s.ring|);
    WrapDifference(0, s.pt, s.ct);
  }

  lemma CheckEmptyKeeps(s: State)
    requires Inv(s) && s.consumer.CIsEmpty?
    ensures Inv(ConsumerStep(s))
    ensures ConsumerStep(s).consumer.CIdle? <==> s.pt == s.ct
  {
    EmptyIsExact(s);
    hide U32, GoodSize;
  }

  lemma EntriesKeeps(s: State)
    requires Inv(s) && s.consumer.CLoad?
    ensures Inv(ConsumerStep(s))
    ensures ConsumerStep(s).consumer.CIdle? <==> s.consumer.n > s.pt - s.ch
    ensures s.consumer.checked ==> ConsumerStep(s).consumer.CClaim?
  {
    EntriesAreExact(s);
    hide U32, GoodSize;
  }

  lemma TakeKeeps(s: State)
    requires Inv(s) && s.consumer.CClaim?
    ensures Inv(ConsumerStep(s))
  {
    WrapSum(s.ch, s.consumer.n);
    hide U32, GoodSize;
  }

  lemma ReadKeeps(s: State)
    requires Inv(s) && s.consumer.CCopy? && |s.consumer.got| < s.consumer.n
    ensures Inv(ConsumerStep(s))
  {
    var p := s.ct + |s.consumer.got|;
    SlotAfter(|s.ring|, s.ct, s.consumer.head, |s.consumer.got|);
    hide U32, GoodSize, Slot;
    assert s.ring[p % |s.ring|] == s.log[p];
    assert s.log[s.ct..p + 1] == s.log[s.ct..p] + [s.log[p]];
  }

  lemma ReleaseKeeps(s: State)
    requires Inv(s) && s.consumer.CCopy? && |s.consumer.got| == s.consumer.n
    ensures Inv(ConsumerStep(s))
  {
    WrapSum(s.ct, s.consumer.n);
    hide U32, GoodSize;
    assert s.log[..s.ch] == s.log[..s.ct] + s.log[s.ct..s.ch];
  }

  lemma ConsumerKeeps(s: State)
    requires Inv(s)
    ensures Inv(ConsumerStep(s))
  {
    match s.consumer {
      case CIdle =>
      case CIsEmpty => CheckEmptyKeeps(s);
      case CLoad(_, _) => EntriesKeeps(s);
      case CClaim(_, _) => TakeKeeps(s);
      case CCopy(n, _, got) =>
        if |got| < n {
          ReadKeeps(s);
        } else {
          ReleaseKeeps(s);
        }
    }
  }

  /** Starting a call changes nothing but the thread's own place. */
  lemma StartKeeps(s: State, m: Move)
    requires Inv(s) && !m.ProducerGoes? && !m.ConsumerGoes?
    ensures Inv(Step(s, m))
  {
    hide ProducerStep, ConsumerStep, GoodSize, U32;
  }

  lemma StepKeeps(s: State, m: Move)
    requires Inv(s)
    ensures Inv(Step(s, m))
  {
    hide Inv, ProducerStep, ConsumerStep;
    match m {
      case ProducerGoes => ProducerKeeps(s);
      case ConsumerGoes => ConsumerKeeps(s);
      case _ => StartKeeps(s, m);
    }
  }

  lemma {:induction false} RunKeeps(s: State, moves: seq<Move>)
    requires Inv(s)
    ensures Inv(Run(s, moves))
  {
    hide Inv, Step;
    if moves != [] {
      var n := |moves| - 1;
      RunKeeps(s, moves[..n]);
      StepKeeps(Run(s, moves[..n]), moves[n]);
    }
  }
}
