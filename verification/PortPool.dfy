/** The second buffer pool: one cache per pool, no reserve, and separate halves for
    receiving and transmitting.  bcache_init takes its four slabs from the top of the
    pool's list and leaves their entries there, above the slabs in use.

    `hands` (what a half has taken and not given back), `loans` (how many more slabs
    it fetched from the pool than it brought back) and `discarded` (what the two
    producer slabs held when the cache took them) record the past; no operation reads
    them. */
module PortPool {
  import opened Bits
  import opened SlabMemory
  import S = SharedPool

  datatype Side = Rx | Tx

  datatype Half = Half(cons: nat, prod: nat, nCons: nat, nProd: nat, hands: multiset<Addr>, loans: int)

  datatype Port = Port(width: nat, mem: seq<Addr>, slabs: seq<nat>, nAvail: nat, rx: Half, tx: Half,
                       discarded: multiset<Addr>)

  function Of(p: Port, s: Side): Half {
    if s == Rx then p.rx else p.tx
  }

  function With(p: Port, s: Side, h: Half): Port {
    if s == Rx then p.(rx := h) else p.(tx := h)
  }

  // --------------------------------------------------------------- operations

  /** bpool_init. */
  function Frames(n: nat, bufferSize: nat): seq<Addr> {
    seq(n, i requires 0 <= i < n => i * bufferSize)
  }

  /** The entries of the slab list that bcache_init reads, computed in 64 bits. */
  function InitReads(nAvail: nat): seq<nat> {
    if nAvail == 0 then [] else [U64(nAvail - 1), U64(nAvail - 2), U64(nAvail - 3), U64(nAvail - 4)]
  }

  /** All of them are in the list. */
  predicate CanInit(nAvail: nat, nSlabs: nat) {
    forall k | 0 <= k < |InitReads(nAvail)| :: InitReads(nAvail)[k] < nSlabs
  }

  /** bcache_init stays inside the list exactly for empty pools and for four slabs or
      more; it only looks whether the pool is empty. */
  lemma CanInitIff(nAvail: nat, nSlabs: nat)
    requires nAvail <= nSlabs < TWO_63
    ensures CanInit(nAvail, nSlabs) <==> nAvail == 0 || nAvail >= 4
  {
    if 0 < nAvail < 4 {
      DivModUnique(nAvail - 4, TWO_64, -1, nAvail - 4 + TWO_64);
      assert InitReads(nAvail)[3] == nAvail - 4 + TWO_64;
    } else if nAvail >= 4 {
      SmallMod(nAvail - 1, TWO_64);
      SmallMod(nAvail - 2, TWO_64);
      SmallMod(nAvail - 3, TWO_64);
      SmallMod(nAvail - 4, TWO_64);
    }
  }

  /** With three slabs the fourth read is almost 2^64 entries away. */
  lemma ThreeSlabs()
    ensures InitReads(3) == [2, 1, 0, TWO_64 - 1] && !CanInit(3, 3)
  {
    assert InitReads(3)[3] == TWO_64 - 1;
  }

  function Init(n: nat, width: nat, bufferSize: nat): Port
    requires n >= 4
  {
    var (mem, slabs) := (Frames(n * width, bufferSize), Cut(n, 0, width));
    Port(width, mem, slabs, n - 4,
         Half(slabs[n - 1], slabs[n - 2], width, 0, multiset{}, 0),
         Half(slabs[n - 3], slabs[n - 4], width, 0, multiset{}, 0),
         Window(mem, slabs[n - 2], width) + Window(mem, slabs[n - 4], width))
  }

  function Window(mem: seq<Addr>, p: nat, width: nat): multiset<Addr> {
    if p + width <= |mem| then multiset(mem[p..p + width]) else multiset{}
  }

  predicate CanCheck(p: Port) {
    p.nAvail <= |p.slabs|
  }

  /** bcache_cons_check and bcache_cons_tx_check: the number of takes they license ... */
  function Licence(p: Port, s: Side, n: nat): nat {
    var k := Of(p, s).nCons;
    if k != 0 then (if k < n then k else n) else if p.nAvail == 0 then 0 else n
  }

  /** ... and what they leave. */
  function Check(p: Port, s: Side): Port
    requires CanCheck(p)
  {
    var h := Of(p, s);
    if h.nCons != 0 || p.nAvail == 0 then p
    else
      var k := p.nAvail - 1;
      With(p.(slabs := p.slabs[k := h.cons], nAvail := k), s,
           h.(cons := p.slabs[k], nCons := p.width, loans := h.loans + 1))
  }

  predicate CanTake(p: Port, s: Side) {
    0 < Of(p, s).nCons <= |p.mem| - Of(p, s).cons
  }

  /** bcache_cons and bcache_cons_tx. */
  function Top(p: Port, s: Side): Addr
    requires CanTake(p, s)
  {
    p.mem[Of(p, s).cons + Of(p, s).nCons - 1]
  }

  function Take(p: Port, s: Side): Port
    requires CanTake(p, s)
  {
    var h := Of(p, s);
    With(p, s, h.(nCons := h.nCons - 1, hands := h.hands + multiset{Top(p, s)}))
  }

  /** bcache_prod and bcache_prod_tx read and write the entry at nAvail to trade. */
  predicate CanGive(p: Port, s: Side) {
    var h := Of(p, s);
    if h.nProd < p.width then h.prod + h.nProd < |p.mem|
    else p.nAvail < |p.slabs| && p.slabs[p.nAvail] < |p.mem|
  }

  function Give(p: Port, s: Side, x: Addr): Port
    requires CanGive(p, s)
  {
    var h := Of(p, s);
    if h.nProd < p.width then
      With(p.(mem := p.mem[h.prod + h.nProd := x]), s, h.(nProd := h.nProd + 1, hands := h.hands - multiset{x}))
    else
      var empty := p.slabs[p.nAvail];
      With(p.(slabs := p.slabs[p.nAvail := h.prod], nAvail := p.nAvail + 1, mem := p.mem[empty := x]), s,
           h.(prod := empty, nProd := 1, hands := h.hands - multiset{x}, loans := h.loans - 1))
  }

  // ---------------------------------------------------------------- invariant

  /** The same state as a shared pool with two caches: its list ends where the stale
      entries begin. */
  function Share(p: Port): S.Pool
    requires |p.slabs| >= 4
  {
    S.Pool(p.width, p.mem, p.slabs[..|p.slabs| - 4], p.nAvail, [0, 0, 0, 0], 0,
           [S.Cache(p.rx.cons, p.rx.prod, p.rx.nCons, p.rx.nProd),
            S.Cache(p.tx.cons, p.tx.prod, p.tx.nCons, p.tx.nProd)],
           p.rx.hands + p.tx.hands, p.discarded)
  }

  function Index(s: Side): nat {
    if s == Rx then 0 else 1
  }

  /** What a half holds and has handed out is its first slab and its loans. */
  predicate Balanced(h: Half, width: nat) {
    h.loans >= 0 && h.nCons + h.nProd + |h.hands| == width + h.loans * width
  }

  ghost predicate Inv(p: Port, stale: seq<nat>, ptrs: set<nat>, addrs: Addr -> nat) {
    && |stale| == 4 && |p.slabs| >= 4 && p.slabs[|p.slabs| - 4..] == stale
    && p.nAvail + p.rx.loans + p.tx.loans == |p.slabs| - 4
    && Balanced(p.rx, p.width) && Balanced(p.tx, p.width)
    && S.Sound(Share(p), ptrs, addrs)
  }

  /** A half whose producer slab is full and that gives back something it took has a
      loan, so the entry it trades lies below the stale ones. */
  lemma TradeBelowStale(p: Port, stale: seq<nat>, ptrs: set<nat>, addrs: Addr -> nat, s: Side)
    requires Inv(p, stale, ptrs, addrs) && Of(p, s).nProd >= p.width && |Of(p, s).hands| > 0
    ensures p.nAvail < |p.slabs| - 4 && Of(p, s).loans > 0
  {
    hide S.Sound;
    assert 0 * p.width == 0;
  }

  // -------------------------------------------------- the shared pool does the same

  lemma CheckShared(p: Port, s: Side)
    requires |p.slabs| >= 4 && p.nAvail <= |p.slabs| - 4
    ensures S.CanCheck(Share(p), Index(s)) && Share(Check(p, s)) == S.Check(Share(p), Index(s))
    ensures Licence(p, s, 0) == S.Licence(Share(p), Index(s), 0)
    ensures Check(p, s).slabs[|p.slabs| - 4..] == p.slabs[|p.slabs| - 4..]
  {
  }

  lemma TakeShared(p: Port, s: Side)
    requires |p.slabs| >= 4 && CanTake(p, s)
    ensures S.CanTake(Share(p), Index(s)) && Share(Take(p, s)) == S.Take(Share(p), Index(s))
    ensures Top(p, s) == S.Top(Share(p), Index(s))
  {
  }

  lemma StoreShared(p: Port, s: Side, x: Addr)
    requires |p.slabs| >= 4 && CanGive(p, s) && x in Of(p, s).hands && Of(p, s).nProd < p.width
    ensures S.CanGive(Share(p), Index(s)) && Share(Give(p, s, x)) == S.Give(Share(p), Index(s), x)
    ensures Give(p, s, x).slabs == p.slabs
  {
    var (r, b) := (Share(Give(p, s, x)), S.Give(Share(p), Index(s), x));
    assert r.hands == b.hands;
    assert r.mem == b.mem && r.slabs == b.slabs;
    assert r.caches == b.caches;
  }

  lemma TradeShared(p: Port, s: Side, x: Addr)
    requires |p.slabs| >= 4 && CanGive(p, s) && x in Of(p, s).hands
    requires Of(p, s).nProd >= p.width && p.nAvail < |p.slabs| - 4
    ensures S.CanGive(Share(p), Index(s)) && Share(Give(p, s, x)) == S.Give(Share(p), Index(s), x)
    ensures Give(p, s, x).slabs[|p.slabs| - 4..] == p.slabs[|p.slabs| - 4..]
  {
    assert Share(Give(p, s, x)).hands == Share(p).hands - multiset{x};
  }

  // ------------------------------------------------------------ preservation

  lemma CheckKeeps(p: Port, stale: seq<nat>, ptrs: set<nat>, addrs: Addr -> nat, s: Side)
    requires Inv(p, stale, ptrs, addrs)
    ensures CanCheck(p) && Inv(Check(p, s), stale, ptrs, addrs)
  {
    CheckShared(p, s);
    S.CheckSound(Share(p), ptrs, addrs, Index(s));
    hide S.Sound, S.Check, Share;
    var h := Of(p, s);
    assert (h.loans + 1) * p.width == h.loans * p.width + p.width;
  }

  lemma TakeKeeps(p: Port, stale: seq<nat>, ptrs: set<nat>, addrs: Addr -> nat, s: Side)
    requires Inv(p, stale, ptrs, addrs) && Of(p, s).nCons > 0
    ensures CanTake(p, s) && Inv(Take(p, s), stale, ptrs, addrs)
  {
    S.TakeSound(Share(p), ptrs, addrs, Index(s));
    TakeShared(p, s);
    hide S.Sound, S.Take, Share;
  }

  /** Giving something back never trades a stale entry. */
  lemma GiveSafe(p: Port, stale: seq<nat>, ptrs: set<nat>, addrs: Addr -> nat, s: Side, x: Addr)
    requires Inv(p, stale, ptrs, addrs) && x in Of(p, s).hands
    ensures CanGive(p, s) && Of(p, s).nProd <= p.width
    ensures Of(p, s).nProd < p.width || p.nAvail < |p.slabs| - 4
  {
    if Of(p, s).nProd >= p.width {
      TradeBelowStale(p, stale, ptrs, addrs, s);
    }
    var b := Share(p);
    S.CachePointer(b, ptrs, addrs, Index(s));
    S.SlabPointers(b, ptrs, addrs);
    assert b.caches[Index(s)].nProd <= b.width;
    hide S.Pointers, S.Places, WellPlaced;
  }

  lemma GiveBalance(p: Port, s: Side, x: Addr)
    requires CanGive(p, s) && x in Of(p, s).hands && Of(p, s).nProd <= p.width
    requires Balanced(Of(p, s), p.width) && (Of(p, s).nProd < p.width || Of(p, s).loans > 0)
    ensures var (h, r) := (Of(p, s), Of(Give(p, s, x), s));
            Balanced(r, p.width) && r.loans == h.loans - (if h.nProd < p.width then 0 else 1)
  {
    var (h, r, w) := (Of(p, s), Of(Give(p, s, x), s), p.width);
    assert r.hands == h.hands - multiset{x} && r.nCons == h.nCons;
    assert if h.nProd < w then r.nProd == h.nProd + 1 && r.loans == h.loans else r.nProd == 1 && r.loans == h.loans - 1;
    hide Give, CanGive, Of, With;
    assert |r.hands| == |h.hands| - 1;
    OneLess(h.loans, w);
  }

  lemma OneLess(k: int, w: nat)
    ensures (k - 1) * w == k * w - w
  {
  }

  lemma GiveKeeps(p: Port, stale: seq<nat>, ptrs: set<nat>, addrs: Addr -> nat, s: Side, x: Addr)
    requires Inv(p, stale, ptrs, addrs) && x in Of(p, s).hands
    ensures CanGive(p, s) && Inv(Give(p, s, x), stale, ptrs, addrs)
    ensures Of(p, s).nProd < p.width || p.nAvail < |p.slabs| - 4
  {
    GiveSafe(p, stale, ptrs, addrs, s, x);
    if Of(p, s).nProd < p.width {
      StoreShared(p, s, x);
    } else {
      TradeBelowStale(p, stale, ptrs, addrs, s);
      TradeShared(p, s, x);
    }
    hide S.Sound, S.Give, S.CanGive, Share, Balanced;
    GiveBalance(p, s, x);
    S.GiveSound(Share(p), ptrs, addrs, Index(s), x);
  }

  // ------------------------------------------------------------ the new cache

  lemma InitPointers(n: nat, width: nat, bufferSize: nat, x: nat)
    requires n >= 4 && width >= 1
    ensures S.Pointers(Share(Init(n, width, bufferSize)), x) == Bit(x in Cut(n, 0, width))
  {
    var p := Init(n, width, bufferSize);
    var b := Share(p);
    CutPlaced(n, width);
    S.CountDistinct(p.slabs, x);
    CountSplit(p.slabs, n - 4, x);
    assert p.slabs[n - 4..] == [p.tx.prod, p.tx.cons, p.rx.prod, p.rx.cons];
    var (u0, u1) := (S.Uses(b.caches[0], x), S.Uses(b.caches[1], x));
    assert Count(p.slabs[n - 4..], x) == u0 + u1;
    hide Count;
    assert S.Uses1(b.caches, x) == [] + [u0] + [u1];
    TotalSnoc([u0], u1);
    TotalSnoc([], u0);
    assert b.reserved[..b.nRes] == [];
    assert Count(b.reserved[..b.nRes], x) == 0 by {
      S.CountDistinct(b.reserved[..b.nRes], x);
    }
  }

  lemma InitPlaces(n: nat, width: nat, bufferSize: nat, x: Addr)
    requires n >= 4 && width >= 1 && bufferSize >= 1
    ensures S.Places(Share(Init(n, width, bufferSize)), x) == Bit(S.IsFrame(n, width, bufferSize, x))
  {
    var p := Init(n, width, bufferSize);
    var b := Share(p);
    S.FramesOnce(n * width, bufferSize, x);
    S.InCut(p.mem, n, n, width, x);
    assert p.mem[..n * width] == p.mem;
    S.SameFull(p.mem, p.mem, p.slabs, b.slabs, n - 4, width, x);
    assert S.InFull(p.mem, p.slabs, n, width, x)
        == S.InFull(p.mem, p.slabs, n - 1, width, x) + In(p.mem, p.rx.cons, width, x)
        == S.InFull(p.mem, p.slabs, n - 2, width, x) + In(p.mem, p.rx.prod, width, x) + In(p.mem, p.rx.cons, width, x)
        == S.InFull(p.mem, p.slabs, n - 3, width, x) + In(p.mem, p.tx.cons, width, x)
           + In(p.mem, p.rx.prod, width, x) + In(p.mem, p.rx.cons, width, x);
    forall i | n - 4 <= i < n
      ensures p.slabs[i] + width <= |p.mem|
    {
      Steps(i, n, width);
    }
    EmptyPrefix(p.mem, p.rx.prod, x);
    EmptyPrefix(p.mem, p.tx.prod, x);
    assert S.Held1(p.mem, b.caches, x) == [] + [S.Held(p.mem, b.caches[0], x)] + [S.Held(p.mem, b.caches[1], x)];
    TotalSnoc([S.Held(p.mem, b.caches[0], x)], S.Held(p.mem, b.caches[1], x));
    TotalSnoc([], S.Held(p.mem, b.caches[0], x));
  }

  lemma InitShape(n: nat, width: nat, bufferSize: nat)
    requires n >= 4 && width >= 1
    ensures S.Shape(Share(Init(n, width, bufferSize)))
  {
    var b := Share(Init(n, width, bufferSize));
    assert S.Opened(b.caches) == [] + [1] + [1];
    TotalSnoc([1], 1);
    TotalSnoc([], 1);
  }

  ghost function SlabSet(n: nat, width: nat): set<nat> {
    var all := Cut(n, 0, width);
    set p | p in all
  }

  ghost function FrameCount(n: nat, width: nat, bufferSize: nat): Addr -> nat {
    x => Bit(S.IsFrame(n, width, bufferSize, x))
  }

  lemma InitInv(n: nat, width: nat, bufferSize: nat)
    requires n >= 4 && width >= 1 && bufferSize >= 1
    ensures Inv(Init(n, width, bufferSize), Cut(n, 0, width)[n - 4..], SlabSet(n, width),
                FrameCount(n, width, bufferSize))
  {
    var b := Share(Init(n, width, bufferSize));
    CutPlaced(n, width);
    InitShape(n, width, bufferSize);
    hide S.Shape, S.Pointers, S.Places;
    forall p: nat
      ensures S.Pointers(b, p) == Bit(p in SlabSet(n, width))
    {
      InitPointers(n, width, bufferSize, p);
    }
    forall x: Addr
      ensures S.Places(b, x) == Bit(S.IsFrame(n, width, bufferSize, x))
    {
      InitPlaces(n, width, bufferSize, x);
    }
  }

  // ---------------------------------------------------------------- all runs

  datatype Op = CheckOp(s: Side, n: nat) | TakeOp(s: Side) | GiveOp(s: Side, x: Addr)

  /** Each half takes what it was licensed and gives back only what it took. */
  predicate Allowed(p: Port, op: Op) {
    match op
    case CheckOp(_, _) => true
    case TakeOp(s) => Of(p, s).nCons > 0
    case GiveOp(s, x) => x in Of(p, s).hands
  }

  predicate Safe(p: Port, op: Op) {
    match op
    case CheckOp(_, _) => CanCheck(p)
    case TakeOp(s) => CanTake(p, s)
    case GiveOp(s, _) => CanGive(p, s)
  }

  function Apply(p: Port, op: Op): Port
    requires Safe(p, op)
  {
    match op
    case CheckOp(s, _) => Check(p, s)
    case TakeOp(s) => Take(p, s)
    case GiveOp(s, x) => Give(p, s, x)
  }

  /** A run in any interleaving of the two halves; what is not allowed is not done. */
  function RunOps(p: Port, ops: seq<Op>): Port {
    if ops == [] then p
    else
      var (r, op) := (RunOps(p, ops[..|ops| - 1]), ops[|ops| - 1]);
      if Allowed(r, op) && Safe(r, op) then Apply(r, op) else r
  }

  lemma ApplyKeeps(p: Port, stale: seq<nat>, ptrs: set<nat>, addrs: Addr -> nat, op: Op)
    requires Inv(p, stale, ptrs, addrs) && Allowed(p, op)
    ensures Safe(p, op) && Inv(Apply(p, op), stale, ptrs, addrs)
  {
    hide Inv;
    match op {
      case CheckOp(s, _) => CheckKeeps(p, stale, ptrs, addrs, s);
      case TakeOp(s) => TakeKeeps(p, stale, ptrs, addrs, s);
      case GiveOp(s, x) => GiveKeeps(p, stale, ptrs, addrs, s, x);
    }
  }

  lemma {:induction false} RunKeeps(p: Port, stale: seq<nat>, ptrs: set<nat>, addrs: Addr -> nat, ops: seq<Op>)
    requires Inv(p, stale, ptrs, addrs)
    ensures Inv(RunOps(p, ops), stale, ptrs, addrs)
  {
    hide Inv;
    if ops != [] {
      var n := |ops| - 1;
      RunKeeps(p, stale, ptrs, addrs, ops[..n]);
      if Allowed(RunOps(p, ops[..n]), ops[n]) {
        ApplyKeeps(RunOps(p, ops[..n]), stale, ptrs, addrs, ops[n]);
      }
    }
  }

  function SharedOp(op: Op): S.Op {
    match op
    case CheckOp(s, n) => S.CheckOp(Index(s), n)
    case TakeOp(s) => S.TakeOp(Index(s))
    case GiveOp(s, x) => S.GiveOp(Index(s), x)
  }

  lemma ApplyShared(p: Port, stale: seq<nat>, ptrs: set<nat>, addrs: Addr -> nat, op: Op)
    requires Inv(p, stale, ptrs, addrs) && Allowed(p, op)
    ensures Safe(p, op) && S.Allowed(Share(p), SharedOp(op)) && S.Safe(Share(p), SharedOp(op))
    ensures Share(Apply(p, op)) == S.Apply(Share(p), SharedOp(op))
    ensures op.GiveOp? && Of(p, op.s).nProd >= p.width ==> p.nAvail < |p.slabs| - 4
  {
    ApplyKeeps(p, stale, ptrs, addrs, op);
    match op {
      case CheckOp(s, _) =>
        CheckShared(p, s);
      case TakeOp(s) =>
        TakeShared(p, s);
      case GiveOp(s, x) =>
        GiveKeeps(p, stale, ptrs, addrs, s, x);
        if Of(p, s).nProd < p.width {
          StoreShared(p, s, x);
        } else {
          TradeShared(p, s, x);
        }
    }
  }

  // ------------------------------------------------------------ main results

  /** The slabs in use: the cache's and the listed ones. */
  function Own(p: Port): seq<nat>
    requires |p.slabs| >= 4
  {
    [p.rx.cons, p.rx.prod, p.tx.cons, p.tx.prod] + p.slabs[..|p.slabs| - 4]
  }

  /** In every run of both halves the four entries that bcache_init left behind stay as
      they are and above all slabs in use; the cache's slabs and the listed ones stay
      pairwise different and original; and every frame address is in exactly one place. */
  lemma NeverAliases(n: nat, width: nat, bufferSize: nat, ops: seq<Op>)
    requires n >= 4 && width >= 1 && bufferSize >= 1
    ensures
      var (p0, p) := (Init(n, width, bufferSize), RunOps(Init(n, width, bufferSize), ops));
      && |p.slabs| == n && p.nAvail <= n - 4 && p.slabs[n - 4..] == p0.slabs[n - 4..]
      && (forall i, j | 0 <= i < j < n :: Own(p)[i] != Own(p)[j])
      && (forall q | q in Own(p) :: q in p0.slabs)
      && (forall x: Addr :: S.Places(Share(p), x) == Bit(S.IsFrame(n, width, bufferSize, x)))
  {
    var p0 := Init(n, width, bufferSize);
    var (stale, ptrs, addrs) := (p0.slabs[n - 4..], SlabSet(n, width), FrameCount(n, width, bufferSize));
    InitInv(n, width, bufferSize);
    RunKeeps(p0, stale, ptrs, addrs, ops);
    RunLength(p0, ops);
    var p := RunOps(p0, ops);
    hide RunOps;
    OwnSlabs(p, stale, ptrs, addrs);
    hide S.Shape, S.Pointers, S.Places, Own, Share;
  }

  /** And every operation allowed in such a state stays inside its arrays, does what the
      shared pool would, and trades a producer slab only below the stale entries. */
  lemma EveryTradeBelowStale(n: nat, width: nat, bufferSize: nat, ops: seq<Op>, op: Op)
    requires n >= 4 && width >= 1 && bufferSize >= 1
    requires Allowed(RunOps(Init(n, width, bufferSize), ops), op)
    ensures
      var p := RunOps(Init(n, width, bufferSize), ops);
      && |p.slabs| == n && Safe(p, op) && S.Safe(Share(p), SharedOp(op))
      && Share(Apply(p, op)) == S.Apply(Share(p), SharedOp(op))
      && (op.GiveOp? && Of(p, op.s).nProd >= p.width ==> p.nAvail < n - 4)
  {
    var p0 := Init(n, width, bufferSize);
    InitInv(n, width, bufferSize);
    var (stale, ptrs, addrs) := (p0.slabs[n - 4..], SlabSet(n, width), FrameCount(n, width, bufferSize));
    RunKeeps(p0, stale, ptrs, addrs, ops);
    RunLength(p0, ops);
    hide RunOps, Inv;
    ApplyShared(RunOps(p0, ops), stale, ptrs, addrs, op);
  }

  lemma {:induction false} RunLength(p: Port, ops: seq<Op>)
    ensures |RunOps(p, ops).slabs| == |p.slabs| && RunOps(p, ops).width == p.width
  {
    if ops != [] {
      RunLength(p, ops[..|ops| - 1]);
    }
  }

  lemma OwnSlabs(p: Port, stale: seq<nat>, ptrs: set<nat>, addrs: Addr -> nat)
    requires Inv(p, stale, ptrs, addrs)
    ensures forall i, j | 0 <= i < j < |p.slabs| :: Own(p)[i] != Own(p)[j]
    ensures forall q | q in Own(p) :: q in ptrs
  {
    var b := Share(p);
    S.SlabPointers(b, ptrs, addrs);
    S.CachePointer(b, ptrs, addrs, 0);
    S.CachePointer(b, ptrs, addrs, 1);
    S.OtherCache(b, ptrs, addrs, 0, 1, p.rx.cons);
    S.OtherCache(b, ptrs, addrs, 0, 1, p.rx.prod);
    hide S.Sound;
  }

  /** How many of the operations take from this half. */
  function Takes(ops: seq<Op>, s: Side): nat {
    if ops == [] then 0
    else Takes(ops[..|ops| - 1], s) + Bit(ops[|ops| - 1] == TakeOp(s))
  }

  lemma OneTake(p: Port, s: Side, op: Op)
    requires Allowed(p, op) && Safe(p, op) && (op.CheckOp? ==> op.s != s)
    ensures Of(Apply(p, op), s).nCons == Of(p, s).nCons - Bit(op == TakeOp(s))
  {
  }

  /** As long as there are no more of them than the half has buffers, every take of a
      run is performed and lowers the counter by one, whatever is given back in between
      and whatever the other half does. */
  lemma {:induction false} TakesSucceed(p: Port, stale: seq<nat>, ptrs: set<nat>, addrs: Addr -> nat,
                                              s: Side, ops: seq<Op>)
    requires Inv(p, stale, ptrs, addrs) && Takes(ops, s) <= Of(p, s).nCons
    requires forall k | 0 <= k < |ops| :: ops[k].CheckOp? ==> ops[k].s != s
    ensures Of(RunOps(p, ops), s).nCons == Of(p, s).nCons - Takes(ops, s)
  {
    if ops != [] {
      var n := |ops| - 1;
      TakesSucceed(p, stale, ptrs, addrs, s, ops[..n]);
      RunKeeps(p, stale, ptrs, addrs, ops[..n]);
      var r := RunOps(p, ops[..n]);
      hide Inv;
      if Allowed(r, ops[n]) {
        ApplyKeeps(r, stale, ptrs, addrs, ops[n]);
        OneTake(r, s, ops[n]);
      }
      hide Apply, Allowed, Safe;
    }
  }

  /** What a check leaves a half with, and what it returns: nothing only if the half and the
      pool had nothing; then as much of the request as the half has, and that is all of a
      request that fetched a slab, however large. */
  lemma LicenceExact(p: Port, s: Side, n: nat)
    requires CanCheck(p) && p.width >= 1
    ensures var (had, has) := (Of(p, s).nCons, Of(Check(p, s), s).nCons);
            && has == (if had > 0 then had else if p.nAvail > 0 then p.width else 0)
            && (has == 0 <==> had == 0 && p.nAvail == 0)
            && (n <= p.width ==> Licence(p, s, n) == if n < has then n else has)
            && (n > p.width ==> Licence(p, s, n) == if had == 0 && p.nAvail > 0 then n else if n < has then n else has)
  {
  }

  /** What a check returns for a request of at most the slab size licenses that many
      takes; for a larger request that is so unless the slab was fetched just now. */
  lemma LicenceHolds(p: Port, stale: seq<nat>, ptrs: set<nat>, addrs: Addr -> nat, s: Side, n: nat, ops: seq<Op>)
    requires Inv(p, stale, ptrs, addrs)
    requires forall k | 0 <= k < |ops| :: ops[k].CheckOp? ==> ops[k].s != s
    ensures CanCheck(p)
    ensures var r := Check(p, s);
            Licence(p, s, n) <= Of(r, s).nCons <==> n <= p.width || Of(p, s).nCons != 0 || p.nAvail == 0
    ensures var r := Check(p, s);
            Licence(p, s, n) <= Of(r, s).nCons && Takes(ops, s) <= Licence(p, s, n) ==>
              Of(RunOps(r, ops), s).nCons == Of(r, s).nCons - Takes(ops, s)
  {
    CheckKeeps(p, stale, ptrs, addrs, s);
    if Licence(p, s, n) <= Of(Check(p, s), s).nCons && Takes(ops, s) <= Licence(p, s, n) {
      TakesSucceed(Check(p, s), stale, ptrs, addrs, s, ops);
    }
  }

  /** A half that has used up its slab of one buffer promises two. */
  lemma OverPromise()
    ensures var p := RunOps(Init(5, 1, 1), [TakeOp(Rx)]);
            Licence(p, Rx, 2) == 2 && CanCheck(p) && Check(p, Rx).rx.nCons == 1
  {
    var p0 := Init(5, 1, 1);
    assert [TakeOp(Rx)][..0] == [] && RunOps(p0, []) == p0;
    assert RunOps(p0, [TakeOp(Rx)]) == Take(p0, Rx);
  }

  /** What a half can still take. */
  function Stock(p: Port, s: Side): seq<Addr> {
    var h := Of(p, s);
    if h.cons + h.nCons <= |p.mem| then p.mem[h.cons..h.cons + h.nCons] else []
  }

  /** It consists of different frames that nobody holds. */
  lemma StockFree(p: Port, stale: seq<nat>, ptrs: set<nat>, n: nat, width: nat, bufferSize: nat, s: Side)
    requires Inv(p, stale, ptrs, FrameCount(n, width, bufferSize))
    ensures var t := Stock(p, s);
            && |t| == Of(p, s).nCons
            && (forall i, j | 0 <= i < j < |t| :: t[i] != t[j])
            && (forall x | x in t :: S.IsFrame(n, width, bufferSize, x) && x !in p.rx.hands && x !in p.tx.hands)
  {
    var (t, addrs) := (Stock(p, s), FrameCount(n, width, bufferSize));
    S.CachePointer(Share(p), ptrs, addrs, Index(s));
    assert Share(p).caches[Index(s)].nCons <= p.width;
    assert |t| == Of(p, s).nCons;
    forall x | x in t
      ensures Count(t, x) == 1 && S.IsFrame(n, width, bufferSize, x) && x !in p.rx.hands && x !in p.tx.hands
    {
      StockOnce(p, stale, ptrs, addrs, s, x);
    }
    hide Inv, Share, Stock;
    forall i, j | 0 <= i < j < |t|
      ensures t[i] != t[j]
    {
      if t[i] == t[j] {
        CountTwo(t, i, j);
      }
    }
  }

  lemma StockOnce(p: Port, stale: seq<nat>, ptrs: set<nat>, addrs: Addr -> nat, s: Side, x: Addr)
    requires Inv(p, stale, ptrs, addrs) && x in Stock(p, s)
    ensures Count(Stock(p, s), x) + p.rx.hands[x] + p.tx.hands[x] <= addrs(x) && Count(Stock(p, s), x) >= 1
  {
    var b := Share(p);
    S.OneHolding(p.mem, p.mem, b.caches, Index(s), b.caches[Index(s)], x);
    assert S.Places(b, x) == addrs(x);
    hide S.Shape, S.Pointers, S.InFull;
  }

  lemma TakeStock(p: Port, s: Side)
    requires CanTake(p, s)
    ensures Stock(p, s) == Stock(Take(p, s), s) + [Top(p, s)]
  {
  }

  /** The slab that takes the next address. */
  function Target(p: Port, s: Side): nat
    requires CanGive(p, s)
  {
    if Of(p, s).nProd < p.width then Of(p, s).prod else p.slabs[p.nAvail]
  }

  /** It is apart from the slab that the half takes from. */
  lemma GiveApart(p: Port, stale: seq<nat>, ptrs: set<nat>, addrs: Addr -> nat, s: Side)
    requires Inv(p, stale, ptrs, addrs) && CanGive(p, s) && S.CanGive(Share(p), Index(s))
    ensures var (t, h) := (Target(p, s), Of(p, s));
            && h.nCons <= p.width && h.cons + p.width <= |p.mem|
            && t + p.width <= |p.mem| && Apart(t, h.cons, p.width)
  {
    var b := Share(p);
    S.TargetSeparate(b, ptrs, addrs, Index(s));
    S.CachePointer(b, ptrs, addrs, Index(s));
    assert b.caches[Index(s)].nCons <= b.width;
    assert S.Target(b, Index(s)) == Target(p, s);
    hide S.Pointers, S.Places;
  }

  lemma GiveSpares(p: Port, s: Side, x: Addr)
    requires CanGive(p, s)
    requires var (t, h) := (Target(p, s), Of(p, s));
             && h.nCons <= p.width && h.cons + p.width <= |p.mem|
             && t + p.width <= |p.mem| && Apart(t, h.cons, p.width)
    ensures Stock(Give(p, s, x), s) == Stock(p, s)
  {
    var (t, h) := (Target(p, s), Of(p, s));
    SliceStands(p.mem, t + (if h.nProd < p.width then h.nProd else 0), x, h.cons, h.nCons);
  }

  /** Giving back does not touch what the half can still take. */
  lemma GiveStock(p: Port, stale: seq<nat>, ptrs: set<nat>, addrs: Addr -> nat, s: Side, x: Addr)
    requires Inv(p, stale, ptrs, addrs) && x in Of(p, s).hands
    ensures CanGive(p, s) && Stock(Give(p, s, x), s) == Stock(p, s)
  {
    GiveKeeps(p, stale, ptrs, addrs, s, x);
    assert S.CanGive(Share(p), Index(s)) by {
      if Of(p, s).nProd < p.width {
        StoreShared(p, s, x);
      } else {
        TradeShared(p, s, x);
      }
    }
    hide *;
    GiveApart(p, stale, ptrs, addrs, s);
    GiveSpares(p, s, x);
  }

  lemma SliceStands(mem: seq<Addr>, k: nat, x: Addr, a: nat, n: nat)
    requires k < |mem| && a + n <= |mem| && (k < a || a + n <= k)
    ensures mem[k := x][a..a + n] == mem[a..a + n]
  {
  }

  /** Every take yields a frame that nobody else holds and that is now held once, by
      the half that took it. */
  lemma TakeOwned(n: nat, width: nat, bufferSize: nat, ops: seq<Op>, s: Side)
    requires n >= 4 && width >= 1 && bufferSize >= 1
    requires Of(RunOps(Init(n, width, bufferSize), ops), s).nCons > 0
    ensures var p := RunOps(Init(n, width, bufferSize), ops);
            && CanTake(p, s) && S.IsFrame(n, width, bufferSize, Top(p, s))
            && Top(p, s) !in p.rx.hands && Top(p, s) !in p.tx.hands
            && Of(Take(p, s), s).hands[Top(p, s)] == 1
  {
    var p0 := Init(n, width, bufferSize);
    var (stale, ptrs, addrs) := (p0.slabs[n - 4..], SlabSet(n, width), FrameCount(n, width, bufferSize));
    InitInv(n, width, bufferSize);
    RunKeeps(p0, stale, ptrs, addrs, ops);
    var p := RunOps(p0, ops);
    hide RunOps;
    TakeKeeps(p, stale, ptrs, addrs, s);
    StockFree(p, stale, ptrs, n, width, bufferSize, s);
    TakeStock(p, s);
    assert Top(p, s) in Stock(p, s);
    hide Inv;
  }

  /** The new cache over four slabs of one buffer. */
  predicate FourSlabs(p: Port) {
    && p.width == 1 && p.mem == [0, 1, 2, 3] && p.slabs == [0, 1, 2, 3] && p.nAvail == 0
    && p.rx == Half(3, 2, 1, 0, multiset{}, 0) && p.tx == Half(1, 0, 1, 0, multiset{}, 0)
  }

  lemma NewFour()
    ensures FourSlabs(Init(4, 1, 1))
  {
    assert Cut(4, 0, 1) == [0, 1, 2, 3] && Frames(4, 1) == [0, 1, 2, 3];
  }

  /** Taken by one half and given back by the other. */
  lemma CrossRun(p: Port)
    requires FourSlabs(p)
    ensures CanTake(p, Rx) && Top(p, Rx) == 3
    ensures var p0 := Take(p, Rx);
            && p0.rx.hands == multiset{3} && CanGive(p0, Tx) && CanTake(Give(p0, Tx, 3), Tx)
            && var p1 := Take(Give(p0, Tx, 3), Tx);
               p1.slabs == [0, 1, 2, 3] && |p1.mem| == 4 && p1.width == 1 && p1.nAvail == 0
               && p1.tx.prod == 0 && p1.tx.nProd == 1
  {
  }

  /** The separate balance is needed: if a half gives back what the other half took,
      a stale entry is handed out and one slab is in two places. */
  lemma CrossFreeAliases()
    ensures var p0 := Take(Init(4, 1, 1), Rx);
            var p1 := Take(Give(p0, Tx, Top(Init(4, 1, 1), Rx)), Tx);
            && p0.rx.hands == multiset{3} && p1.tx.nProd == 1
            && (var p2 := Give(p1, Tx, 1);
                p2.tx.prod == p2.slabs[0] == p1.tx.prod && p2.nAvail == 1)
  {
    NewFour();
    CrossRun(Init(4, 1, 1));
    hide Init, Take;
  }
}
