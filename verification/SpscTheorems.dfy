/** What holds in every interleaving of the ring's two threads. */
module SpscTheorems {
  import opened Bits
  import opened SpscModel

  /** The unwrapped indices stay in order and within one ring of each other across any
      number of wrap-arounds, the code's indices are their remainders, and at most
      size - 1 objects are held. */
  lemma IndexOrder(junk: seq<Ptr>, moves: seq<Move>)
    requires GoodSize(|junk|)
    ensures var s := Run(Init(junk), moves);
            && s.ct <= s.ch <= s.pt <= s.ph <= s.ct + s.mask
            && s.prodHead == s.ph % TWO_32 && s.prodTail == s.pt % TWO_32
            && s.consHead == s.ch % TWO_32 && s.consTail == s.ct % TWO_32
            && |s.ring| == |junk| && s.mask == |junk| - 1
            && |s.enqueued| == s.pt && |s.dequeued| == s.ct
            && |s.enqueued| - |s.dequeued| <= |junk| - 1
  {
    InitInv(junk);
    RunKeeps(Init(junk), moves);
    SameSize(Init(junk), moves);
    hide Run, GoodSize;
  }

  lemma {:induction false} SameSize(s: State, moves: seq<Move>)
    ensures |Run(s, moves).ring| == |s.ring|
  {
    if moves != [] {
      SameSize(s, moves[..|moves| - 1]);
    }
  }

  /** What has been dequeued is a prefix of what has been enqueued, and a dequeue under
      way has read the objects that come next. */
  lemma StreamIsPrefix(junk: seq<Ptr>, moves: seq<Move>)
    requires GoodSize(|junk|)
    ensures var s := Run(Init(junk), moves);
            s.dequeued <= s.enqueued && (s.consumer.CCopy? ==> s.dequeued + s.consumer.got <= s.enqueued)
  {
    InitInv(junk);
    RunKeeps(Init(junk), moves);
    var s := Run(Init(junk), moves);
    hide Run, Shape, ProducerOk, Contents;
    Delivered(s);
    if s.consumer.CCopy? {
      var m := s.ct + |s.consumer.got|;
      assert s.enqueued[..m] == s.log[..m] == s.log[..s.ct] + s.log[s.ct..m];
    }
  }

  /** The slot the producer is about to write is inside the ring, and it is no slot that
      holds an object the consumer has not released. */
  lemma {:induction false} NoSlotConflict(junk: seq<Ptr>, moves: seq<Move>, q: nat)
    requires GoodSize(|junk|)
    requires var s := Run(Init(junk), moves);
             s.producer.PCopy? && s.producer.i < |s.producer.objs| && s.ct <= q < s.pt
    ensures var s := Run(Init(junk), moves);
            var k := Slot(s.mask, s.producer.head + s.producer.i);
            && k < |s.ring| && k != q % |s.ring| && q < |s.enqueued| && s.ring[q % |s.ring|] == s.enqueued[q]
  {
    InitInv(junk);
    RunKeeps(Init(junk), moves);
    var s := Run(Init(junk), moves);
    hide Run, GoodSize;
    FreshSlot(s, q);
    assert s.ring[q % |s.ring|] == s.log[q];
  }

  /** Enqueueing fails exactly when there is not enough room at the moment the producer
      loads the consumer's tail; after a check that found the ring not full it never
      fails, whatever the consumer did in between. */
  lemma EnqueueFailsIff(junk: seq<Ptr>, moves: seq<Move>)
    requires GoodSize(|junk|) && Run(Init(junk), moves).producer.PLoad?
    ensures var s := Run(Init(junk), moves); var r := Step(s, ProducerGoes);
            && (r.producer.PIdle? <==> |s.producer.objs| > |junk| - 1 - (s.pt - s.ct))
            && (r.producer.PIdle? ==>
                  r.events == s.events + [NoRoom(false)] && r.ring == s.ring && r.prodHead == s.prodHead)
            && (s.producer.checked ==> r.producer.PClaim?)
  {
    InitInv(junk);
    RunKeeps(Init(junk), moves);
    SameSize(Init(junk), moves);
    hide Run;
    LoadKeeps(Run(Init(junk), moves));
    hide GoodSize;
  }

  /** Dequeueing, dually. */
  lemma DequeueFailsIff(junk: seq<Ptr>, moves: seq<Move>)
    requires GoodSize(|junk|) && Run(Init(junk), moves).consumer.CLoad?
    ensures var s := Run(Init(junk), moves); var r := Step(s, ConsumerGoes);
            && (r.consumer.CIdle? <==> s.consumer.n > s.pt - s.ct)
            && (r.consumer.CIdle? ==> r.events == s.events + [NoEntry(false)] && r.consHead == s.consHead)
            && (s.consumer.checked ==> r.consumer.CClaim?)
  {
    InitInv(junk);
    RunKeeps(Init(junk), moves);
    hide Run;
    EntriesKeeps(Run(Init(junk), moves));
    hide GoodSize;
  }

  /** In no run does a call after its check fail, and no enqueue reports -EDQUOT. */
  lemma IgnoredResultsAreFine(junk: seq<Ptr>, moves: seq<Move>)
    requires GoodSize(|junk|)
    ensures var s := Run(Init(junk), moves);
            NoRoom(true) !in s.events && NoEntry(true) !in s.events && QuotaExceeded !in s.events
  {
    InitInv(junk);
    RunKeeps(Init(junk), moves);
  }

  /** Full means size - 1 objects, empty means none. */
  lemma FullAndEmpty(junk: seq<Ptr>, moves: seq<Move>)
    requires GoodSize(|junk|)
    ensures var s := Run(Init(junk), moves);
            && (IsFull(s.mask, s.prodTail, s.consTail) <==> |s.enqueued| - |s.dequeued| == |junk| - 1)
            && (s.consTail == s.prodTail <==> s.enqueued == s.dequeued)
  {
    InitInv(junk);
    RunKeeps(Init(junk), moves);
    SameSize(Init(junk), moves);
    var s := Run(Init(junk), moves);
    hide Run;
    FullIsExact(s);
    EmptyIsExact(s);
    hide GoodSize, IsFull, U32;
    assert s.enqueued == s.log[..s.pt] && s.dequeued == s.log[..s.ct];
    assert s.pt == s.ct ==> s.enqueued == s.dequeued;
  }

  // --------------------------------------------------------- calls without overlap

  function Times(m: Move, k: nat): seq<Move> {
    seq(k, _ => m)
  }

  function Alone(s: State, m: Move, k: nat): State {
    if k == 0 then s else Step(Alone(s, m, k - 1), m)
  }

  lemma {:induction false} AloneRun(s: State, m: Move, k: nat)
    ensures Alone(s, m, k) == Run(s, Times(m, k))
  {
    if k > 0 {
      AloneRun(s, m, k - 1);
      assert Times(m, k)[..k - 1] == Times(m, k - 1);
    }
  }

  lemma {:induction false} CopyAlone(s: State, k: nat)
    requires s.producer.PCopy? && s.producer.i == 0 && k <= |s.producer.objs|
    ensures var r := Alone(s, ProducerGoes, k);
            r == s.(producer := s.producer.(i := k), ring := r.ring)
  {
    if k > 0 {
      CopyAlone(s, k - 1);
    }
  }

  lemma EnqueueStarts(s: State, objs: seq<Ptr>)
    requires Inv(s) && s.producer.PIdle? && |objs| <= s.mask - (s.pt - s.ct)
    ensures var r := Alone(Step(s, Enqueue(objs)), ProducerGoes, 2);
            && Inv(r) && r.producer.PCopy? && r.producer.objs == objs && r.producer.i == 0
            && r.enqueued == s.enqueued && r.dequeued == s.dequeued && r.events == s.events
  {
    SizeBound(|s.ring|);
    var s1 := Step(s, Enqueue(objs));
    StepKeeps(s, Enqueue(objs));
    LoadKeeps(s1);
    var s2 := ProducerStep(s1);
    ClaimKeeps(s2);
    assert Alone(s1, ProducerGoes, 1) == s2;
  }

  /** An enqueue that runs without the consumer adds exactly its objects. */
  lemma SoloEnqueue(s: State, objs: seq<Ptr>)
    requires Inv(s) && s.producer.PIdle? && |objs| <= s.mask - (s.pt - s.ct)
    ensures var r := Run(Step(s, Enqueue(objs)), Times(ProducerGoes, |objs| + 3));
            && r.producer.PIdle? && r.enqueued == s.enqueued + objs && r.dequeued == s.dequeued
            && r.events == s.events + [Enqueued(|objs|)]
  {
    var (n, s1) := (|objs|, Step(s, Enqueue(objs)));
    hide Run, Times, Alone;
    EnqueueStarts(s, objs);
    var s3 := Alone(s1, ProducerGoes, 2);
    NeverOverQuota(s3, s3.producer.free, n);
    hide Inv, OverQuota;
    CopyAlone(s3, n);
    AloneThenOnce(s1, ProducerGoes, n);
  }

  lemma {:induction false} AloneTwice(s: State, m: Move, j: nat, k: nat)
    ensures Alone(s, m, j + k) == Alone(Alone(s, m, j), m, k)
  {
    if k > 0 {
      AloneTwice(s, m, j, k - 1);
    }
  }

  lemma AloneThenOnce(s: State, m: Move, n: nat)
    ensures Run(s, Times(m, n + 3)) == Step(Alone(Alone(s, m, 2), m, n), m)
  {
    hide Step;
    AloneRun(s, m, n + 3);
    AloneTwice(s, m, 2, n);
  }

  lemma {:induction false} ReadAlone(s: State, k: nat)
    requires s.consumer.CCopy? && s.consumer.got == [] && k <= s.consumer.n
    ensures var r := Alone(s, ConsumerGoes, k);
            r.consumer.CCopy? && r == s.(consumer := s.consumer.(got := r.consumer.got)) && |r.consumer.got| == k
  {
    if k > 0 {
      ReadAlone(s, k - 1);
    }
  }

  lemma DequeueStarts(s: State, n: nat)
    requires Inv(s) && s.consumer.CIdle? && n <= s.pt - s.ct
    ensures var r := Alone(Step(s, Dequeue(n)), ConsumerGoes, 2);
            && Inv(r) && r.consumer.CCopy? && r.consumer.n == n && r.consumer.got == []
            && r.enqueued == s.enqueued && r.ct == s.ct && r.pt == s.pt && r.events == s.events
  {
    SizeBound(|s.ring|);
    var s1 := Step(s, Dequeue(n));
    StepKeeps(s, Dequeue(n));
    EntriesKeeps(s1);
    var s2 := ConsumerStep(s1);
    TakeKeeps(s2);
    assert Alone(s1, ConsumerGoes, 1) == s2;
  }

  lemma {:induction false} AloneKeeps(s: State, m: Move, k: nat)
    requires Inv(s)
    ensures Inv(Alone(s, m, k))
  {
    hide Inv, Step;
    if k > 0 {
      AloneKeeps(s, m, k - 1);
      StepKeeps(Alone(s, m, k - 1), m);
    }
  }

  /** A dequeue that runs without the producer removes exactly the oldest objects. */
  lemma SoloDequeue(s: State, n: nat)
    requires Inv(s) && s.consumer.CIdle? && n <= s.pt - s.ct
    ensures var r := Run(Step(s, Dequeue(n)), Times(ConsumerGoes, n + 3));
            && r.consumer.CIdle? && r.enqueued == s.enqueued && s.ct + n <= |s.enqueued|
            && r.dequeued == s.enqueued[..s.ct + n] && r.events == s.events + [Dequeued(n)]
  {
    var s1 := Step(s, Dequeue(n));
    hide Run, Times, Alone;
    DequeueStarts(s, n);
    var s3 := Alone(s1, ConsumerGoes, 2);
    var s4 := Alone(s3, ConsumerGoes, n);
    AloneKeeps(s3, ConsumerGoes, n);
    ReadAlone(s3, n);
    StepKeeps(s4, ConsumerGoes);
    Delivered(Step(s4, ConsumerGoes));
    hide Inv;
    AloneThenOnce(s1, ConsumerGoes, n);
  }

  lemma Delivered(s: State)
    requires Inv(s)
    ensures s.ct <= |s.enqueued| && s.dequeued == s.enqueued[..s.ct]
  {
    hide Shape, ProducerOk, ConsumerOk, Contents;
  }
}
