/** The first buffer pool: one pool of full slabs shared by any number of caches,
    with reserved slabs for the caches themselves.

    Each operation of a cache is one step: its local part is only seen by its own
    cache, and its trade with the pool happens under the pool's lock.  `hands` (the
    addresses taken and not given back) and `retired` (what closed caches still
    held) record the past and are read by no operation. */
module SharedPool {
  import opened Bits
  import opened SlabMemory

  datatype Cache = Cache(cons: nat, prod: nat, nCons: nat, nProd: nat) | Closed

  datatype Pool = Pool(
    width: nat,
    mem: seq<Addr>,
    slabs: seq<nat>,
    nAvail: nat,
    reserved: seq<nat>,
    nRes: nat,
    caches: seq<Cache>,
    hands: multiset<Addr>,
    retired: multiset<Addr>)

  predicate IsOpen(b: Pool, i: nat) {
    i < |b.caches| && b.caches[i].Cache?
  }

  // --------------------------------------------------------------- operations

  /** bpool_init: slabs over the addressed buffers, reserved slabs behind them. */
  function Fresh(nSlabs: nat, nReserved: nat, width: nat, bufferSize: nat, junk: seq<Addr>): Pool {
    Pool(width,
         seq(nSlabs * width, i requires 0 <= i < nSlabs * width => i * bufferSize) + junk,
         Cut(nSlabs, 0, width), nSlabs,
         Cut(nReserved, nSlabs * width, width), nReserved,
         [], multiset{}, multiset{})
  }

  /** bcache_init indexes two below the top of the reserve unless that is empty. */
  predicate CanOpen(b: Pool) {
    b.nRes != 1 && b.nRes <= |b.reserved|
  }

  function Open(b: Pool): Pool
    requires CanOpen(b)
  {
    if b.nRes == 0 then b
    else b.(caches := b.caches + [Cache(b.reserved[b.nRes - 1], b.reserved[b.nRes - 2], 0, 0)], nRes := b.nRes - 2)
  }

  predicate CanCheck(b: Pool, i: nat) {
    IsOpen(b, i) && b.nAvail <= |b.slabs|
  }

  /** bcache_cons_check: the number of takes it licenses ... */
  function Licence(b: Pool, i: nat, n: nat): nat
    requires CanCheck(b, i)
  {
    var k := b.caches[i].nCons;
    if k != 0 then (if k < n then k else n) else if b.nAvail == 0 then 0 else n
  }

  /** ... and what it leaves: an empty consumer slab is traded for a full one. */
  function Check(b: Pool, i: nat): Pool
    requires CanCheck(b, i)
  {
    var c := b.caches[i];
    if c.nCons != 0 || b.nAvail == 0 then b
    else
      var k := b.nAvail - 1;
      b.(slabs := b.slabs[k := c.cons], nAvail := k, caches := b.caches[i := c.(cons := b.slabs[k], nCons := b.width)])
  }

  predicate CanTake(b: Pool, i: nat) {
    IsOpen(b, i) && 0 < b.caches[i].nCons <= |b.mem| - b.caches[i].cons
  }

  /** bcache_cons: the address at the top of the consumer slab. */
  function Top(b: Pool, i: nat): Addr
    requires CanTake(b, i)
  {
    b.mem[b.caches[i].cons + b.caches[i].nCons - 1]
  }

  function Take(b: Pool, i: nat): Pool
    requires CanTake(b, i)
  {
    b.(caches := b.caches[i := b.caches[i].(nCons := b.caches[i].nCons - 1)],
       hands := b.hands + multiset{Top(b, i)})
  }

  /** bcache_prod stores into the producer slab, or trades it when it is full. */
  predicate CanGive(b: Pool, i: nat) {
    && IsOpen(b, i)
    && var c := b.caches[i];
       if c.nProd < b.width then c.prod + c.nProd < |b.mem|
       else b.nAvail < |b.slabs| && b.slabs[b.nAvail] < |b.mem|
  }

  function Give(b: Pool, i: nat, x: Addr): Pool
    requires CanGive(b, i)
  {
    var c := b.caches[i];
    if c.nProd < b.width then
      b.(mem := b.mem[c.prod + c.nProd := x], caches := b.caches[i := c.(nProd := c.nProd + 1)],
         hands := b.hands - multiset{x})
    else
      var empty := b.slabs[b.nAvail];
      b.(slabs := b.slabs[b.nAvail := c.prod], nAvail := b.nAvail + 1, mem := b.mem[empty := x],
         caches := b.caches[i := c.(prod := empty, nProd := 1)], hands := b.hands - multiset{x})
  }

  predicate CanClose(b: Pool, i: nat) {
    IsOpen(b, i) && b.nRes + 2 <= |b.reserved|
  }

  /** The addresses in a cache. */
  function Contents(mem: seq<Addr>, c: Cache): multiset<Addr> {
    if c.Cache? && c.cons + c.nCons <= |mem| && c.prod + c.nProd <= |mem|
    then multiset(mem[c.cons..c.cons + c.nCons]) + multiset(mem[c.prod..c.prod + c.nProd])
    else multiset{}
  }

  /** bcache_free: both slabs go back to the reserve, whatever they hold. */
  function Close(b: Pool, i: nat): Pool
    requires CanClose(b, i)
  {
    var c := b.caches[i];
    b.(reserved := b.reserved[b.nRes := c.prod][b.nRes + 1 := c.cons], nRes := b.nRes + 2,
       caches := b.caches[i := Closed], retired := b.retired + Contents(b.mem, c))
  }

  // ---------------------------------------------------------------- invariant

  /** How often x is in a cache. */
  ghost function Held(mem: seq<Addr>, c: Cache, x: Addr): nat {
    match c
    case Closed => 0
    case Cache(cons, prod, nCons, nProd) => In(mem, cons, nCons, x) + In(mem, prod, nProd, x)
  }

  /** How often a cache points to p. */
  ghost function Uses(c: Cache, p: nat): nat {
    if c.Cache? then Bit(c.cons == p) + Bit(c.prod == p) else 0
  }

  ghost function Size(c: Cache): nat {
    if c.Cache? then c.nCons + c.nProd else 0
  }

  ghost function Uses1(caches: seq<Cache>, p: nat): seq<nat> {
    seq(|caches|, i requires 0 <= i < |caches| => Uses(caches[i], p))
  }

  ghost function Held1(mem: seq<Addr>, caches: seq<Cache>, x: Addr): seq<nat> {
    seq(|caches|, i requires 0 <= i < |caches| => Held(mem, caches[i], x))
  }

  ghost function Sizes(caches: seq<Cache>): seq<nat> {
    seq(|caches|, i requires 0 <= i < |caches| => Size(caches[i]))
  }

  ghost function Opened(caches: seq<Cache>): seq<nat> {
    seq(|caches|, i requires 0 <= i < |caches| => Bit(caches[i].Cache?))
  }

  /** How often x is in the first n slabs of the list. */
  ghost function InFull(mem: seq<Addr>, slabs: seq<nat>, n: nat, width: nat, x: Addr): nat
    requires n <= |slabs|
  {
    if n == 0 then 0 else InFull(mem, slabs, n - 1, width, x) + In(mem, slabs[n - 1], width, x)
  }

  /** How often slab p is in the pool, the reserve or a cache. */
  ghost function Pointers(b: Pool, p: nat): nat
    requires b.nRes <= |b.reserved|
  {
    Count(b.slabs, p) + Count(b.reserved[..b.nRes], p) + Total(Uses1(b.caches, p))
  }

  /** How often x is in a full slab, in a cache, in the clients' hands or retired. */
  ghost function Places(b: Pool, x: Addr): nat
    requires b.nAvail <= |b.slabs|
  {
    InFull(b.mem, b.slabs, b.nAvail, b.width, x) + Total(Held1(b.mem, b.caches, x)) + b.hands[x] + b.retired[x]
  }

  /** The number of addresses in all those places. */
  ghost function Amount(b: Pool): nat {
    b.nAvail * b.width + Total(Sizes(b.caches)) + |b.hands| + |b.retired|
  }

  ghost predicate Shape(b: Pool) {
    && b.width >= 1 && b.nAvail <= |b.slabs| && b.nRes <= |b.reserved| && b.nRes % 2 == 0
    && b.nRes + 2 * Total(Opened(b.caches)) == |b.reserved|
    && forall i | 0 <= i < |b.caches| && b.caches[i].Cache? ::
         b.caches[i].nCons <= b.width && b.caches[i].nProd <= b.width
  }

  /** `ptrs` are the slabs of the fresh pool, `addrs` says how often each address
      occurs in it. */
  ghost predicate Sound(b: Pool, ptrs: set<nat>, addrs: Addr -> nat) {
    && Shape(b)
    && WellPlaced(ptrs, b.width, |b.mem|)
    && (forall p: nat :: Pointers(b, p) == Bit(p in ptrs))
    && (forall x: Addr :: Places(b, x) == addrs(x))
  }

  ghost predicate Inv(b: Pool, ptrs: set<nat>, addrs: Addr -> nat) {
    Sound(b, ptrs, addrs) && Amount(b) == |b.slabs| * b.width
  }

  // -------------------------------------------------------- distinct pointers

  lemma SlabPointers(b: Pool, ptrs: set<nat>, addrs: Addr -> nat)
    requires Sound(b, ptrs, addrs)
    ensures forall k | 0 <= k < |b.slabs| :: b.slabs[k] in ptrs && b.slabs[k] + b.width <= |b.mem|
    ensures forall k, l | 0 <= k < |b.slabs| && 0 <= l < |b.slabs| && l != k :: b.slabs[l] != b.slabs[k]
  {
    forall k | 0 <= k < |b.slabs|
      ensures b.slabs[k] in ptrs
    {
      CountUpdate(b.slabs, k, 0, b.slabs[k]);
      assert Pointers(b, b.slabs[k]) == Bit(b.slabs[k] in ptrs);
    }
    forall k, l | 0 <= k < |b.slabs| && 0 <= l < |b.slabs| && l != k
      ensures b.slabs[l] != b.slabs[k]
    {
      assert Pointers(b, b.slabs[k]) == Bit(b.slabs[k] in ptrs);
      if b.slabs[l] == b.slabs[k] {
        CountTwo(b.slabs, k, l);
      }
    }
  }

  lemma CachePointer(b: Pool, ptrs: set<nat>, addrs: Addr -> nat, i: nat)
    requires Sound(b, ptrs, addrs) && IsOpen(b, i)
    ensures var c := b.caches[i];
            && c.cons in ptrs && c.prod in ptrs && c.cons != c.prod
            && c.cons + b.width <= |b.mem| && c.prod + b.width <= |b.mem|
            && forall k | 0 <= k < |b.slabs| :: b.slabs[k] != c.cons && b.slabs[k] != c.prod
  {
    var c := b.caches[i];
    forall p | p == c.cons || p == c.prod
      ensures p in ptrs && Uses(c, p) == 1 && forall k | 0 <= k < |b.slabs| :: b.slabs[k] != p
    {
      TotalUpdate(Uses1(b.caches, p), i, 0);
      assert Uses1(b.caches, p)[i] == Uses(c, p);
      assert Pointers(b, p) == Bit(p in ptrs);
      forall k | 0 <= k < |b.slabs|
        ensures b.slabs[k] != p
      {
        CountUpdate(b.slabs, k, 0, p);
      }
    }
  }

  lemma OtherCache(b: Pool, ptrs: set<nat>, addrs: Addr -> nat, i: nat, j: nat, p: nat)
    requires Sound(b, ptrs, addrs) && i < |b.caches| && j < |b.caches| && i != j && Uses(b.caches[i], p) > 0
    ensures Uses(b.caches[j], p) == 0
  {
    TotalTwo(Uses1(b.caches, p), i, j);
    assert Pointers(b, p) == Bit(p in ptrs);
  }

  // ------------------------------------------------------------ preservation

  /** Replacing one cache replaces one term in each total. */
  lemma OneCache(caches: seq<Cache>, i: nat, c: Cache, p: nat)
    requires i < |caches|
    ensures Total(Uses1(caches[i := c], p)) == Total(Uses1(caches, p)) - Uses(caches[i], p) + Uses(c, p)
    ensures Total(Sizes(caches[i := c])) == Total(Sizes(caches)) - Size(caches[i]) + Size(c)
    ensures Total(Opened(caches[i := c])) == Total(Opened(caches)) - Bit(caches[i].Cache?) + Bit(c.Cache?)
  {
    TotalUpdate(Uses1(caches, p), i, Uses(c, p));
    assert Uses1(caches[i := c], p) == Uses1(caches, p)[i := Uses(c, p)];
    TotalUpdate(Sizes(caches), i, Size(c));
    assert Sizes(caches[i := c]) == Sizes(caches)[i := Size(c)];
    TotalUpdate(Opened(caches), i, Bit(c.Cache?));
    assert Opened(caches[i := c]) == Opened(caches)[i := Bit(c.Cache?)];
  }

  lemma OneHolding(mem: seq<Addr>, mem': seq<Addr>, caches: seq<Cache>, i: nat, c: Cache, x: Addr)
    requires i < |caches|
    requires forall j | 0 <= j < |caches| && j != i :: Held(mem', caches[j], x) == Held(mem, caches[j], x)
    ensures Total(Held1(mem', caches[i := c], x)) ==
            Total(Held1(mem, caches, x)) - Held(mem, caches[i], x) + Held(mem', c, x)
    ensures Held(mem, caches[i], x) <= Total(Held1(mem, caches, x))
  {
    hide Held;
    TotalUpdate(Held1(mem, caches, x), i, Held(mem', c, x));
    assert Held1(mem', caches[i := c], x) == Held1(mem, caches, x)[i := Held(mem', c, x)];
  }

  lemma TakePlaces(b: Pool, i: nat, x: Addr)
    requires CanTake(b, i) && b.nAvail <= |b.slabs|
    ensures Places(Take(b, i), x) == Places(b, x)
  {
    hide Total;
    var (r, c) := (Take(b, i), b.caches[i]);
    OneHolding(b.mem, b.mem, b.caches, i, r.caches[i], x);
    TakeFromEnd(b.mem, c.cons, c.nCons - 1, x);
    hide In;
  }

  lemma TakePointers(b: Pool, i: nat, p: nat)
    requires CanTake(b, i) && Shape(b)
    ensures var r := Take(b, i);
            Shape(r) && Pointers(r, p) == Pointers(b, p) && Amount(r) == Amount(b)
  {
    hide Total, Count;
    OneCache(b.caches, i, Take(b, i).caches[i], p);
  }

  lemma TakeSound(b: Pool, ptrs: set<nat>, addrs: Addr -> nat, i: nat)
    requires Sound(b, ptrs, addrs) && IsOpen(b, i) && b.caches[i].nCons > 0
    ensures CanTake(b, i) && Sound(Take(b, i), ptrs, addrs) && Amount(Take(b, i)) == Amount(b)
  {
    CachePointer(b, ptrs, addrs, i);
    hide Pointers, Places, Amount, WellPlaced;
    TakePointers(b, i, 0);
    forall p: nat { TakePointers(b, i, p); }
    forall x: Addr { TakePlaces(b, i, x); }
  }

  lemma TakeKeeps(b: Pool, ptrs: set<nat>, addrs: Addr -> nat, i: nat)
    requires Inv(b, ptrs, addrs) && IsOpen(b, i) && b.caches[i].nCons > 0
    ensures CanTake(b, i) && Inv(Take(b, i), ptrs, addrs)
  {
    TakeSound(b, ptrs, addrs, i);
  }

  lemma {:induction false} SameFull(mem: seq<Addr>, mem': seq<Addr>, slabs: seq<nat>, slabs': seq<nat>,
                                          n: nat, width: nat, x: Addr)
    requires n <= |slabs| && n <= |slabs'|
    requires forall k | 0 <= k < n :: In(mem', slabs'[k], width, x) == In(mem, slabs[k], width, x)
    ensures InFull(mem', slabs', n, width, x) == InFull(mem, slabs, n, width, x)
  {
    if n > 0 {
      SameFull(mem, mem', slabs, slabs', n - 1, width, x);
    }
  }

  lemma CheckPlaces(b: Pool, i: nat, x: Addr)
    requires CanCheck(b, i) && b.caches[i].nCons == 0 && b.nAvail > 0
    ensures Places(Check(b, i), x) == Places(b, x)
  {
    hide Total;
    var r := Check(b, i);
    var k := b.nAvail - 1;
    OneHolding(b.mem, b.mem, b.caches, i, r.caches[i], x);
    SameFull(b.mem, b.mem, b.slabs, r.slabs, k, b.width, x);
    EmptyPrefix(b.mem, b.caches[i].cons, x);
  }

  lemma CheckPointers(b: Pool, i: nat, p: nat)
    requires CanCheck(b, i) && b.caches[i].nCons == 0 && b.nAvail > 0 && Shape(b)
    ensures var r := Check(b, i);
            Shape(r) && Pointers(r, p) == Pointers(b, p) && Amount(r) == Amount(b)
  {
    hide Total, Count;
    var r := Check(b, i);
    OneCache(b.caches, i, r.caches[i], p);
    CountUpdate(b.slabs, b.nAvail - 1, b.caches[i].cons, p);
    assert (b.nAvail - 1) * b.width + b.width == b.nAvail * b.width;
  }

  lemma CheckSound(b: Pool, ptrs: set<nat>, addrs: Addr -> nat, i: nat)
    requires Sound(b, ptrs, addrs) && IsOpen(b, i)
    ensures CanCheck(b, i) && Sound(Check(b, i), ptrs, addrs) && Amount(Check(b, i)) == Amount(b)
  {
    hide Pointers, Places, Amount;
    if b.caches[i].nCons == 0 && b.nAvail > 0 {
      CheckPointers(b, i, 0);
      forall p: nat { CheckPointers(b, i, p); }
      forall x: Addr { CheckPlaces(b, i, x); }
    }
  }

  lemma CheckKeeps(b: Pool, ptrs: set<nat>, addrs: Addr -> nat, i: nat)
    requires Inv(b, ptrs, addrs) && IsOpen(b, i)
    ensures CanCheck(b, i) && Inv(Check(b, i), ptrs, addrs)
  {
    CheckSound(b, ptrs, addrs, i);
  }

  /** A cache whose producer slab is full and a client that still holds an address:
      so not every slab of the pool is full, as the comment in the code says. */
  lemma EmptySlabLeft(b: Pool, ptrs: set<nat>, addrs: Addr -> nat, i: nat)
    requires Inv(b, ptrs, addrs) && IsOpen(b, i) && b.caches[i].nProd == b.width && |b.hands| > 0
    ensures b.nAvail < |b.slabs|
  {
    TotalUpdate(Sizes(b.caches), i, 0);
    assert Sizes(b.caches)[i] >= b.width;
    Cancel(b.nAvail, |b.slabs|, b.width);
  }

  lemma StoreHeld(b: Pool, ptrs: set<nat>, addrs: Addr -> nat, i: nat, p: nat, o: nat, y: Addr, x: Addr)
    requires Sound(b, ptrs, addrs) && IsOpen(b, i) && p in ptrs && o < b.width
    requires p == b.caches[i].prod || p in b.slabs
    ensures forall j | 0 <= j < |b.caches| && j != i ::
              Held(b.mem[p + o := y], b.caches[j], x) == Held(b.mem, b.caches[j], x)
  {
    forall j | 0 <= j < |b.caches| && j != i && b.caches[j].Cache?
      ensures Held(b.mem[p + o := y], b.caches[j], x) == Held(b.mem, b.caches[j], x)
    {
      var d := b.caches[j];
      CachePointer(b, ptrs, addrs, j);
      if p == b.caches[i].prod {
        OtherCache(b, ptrs, addrs, i, j, p);
      }
      StoreElsewhere(b.mem, p, o, y, d.cons, d.nCons, b.width, x);
      StoreElsewhere(b.mem, p, o, y, d.prod, d.nProd, b.width, x);
    }
  }

  lemma GivePointers(b: Pool, i: nat, y: Addr, p: nat)
    requires CanGive(b, i) && Shape(b) && y in b.hands
    ensures var r := Give(b, i, y);
            Shape(r) && Pointers(r, p) == Pointers(b, p) && Amount(r) == Amount(b)
  {
    hide Total, Count;
    var r := Give(b, i, y);
    var c := b.caches[i];
    OneCache(b.caches, i, r.caches[i], p);
    if c.nProd == b.width {
      CountUpdate(b.slabs, b.nAvail, c.prod, p);
      assert b.nAvail * b.width + b.width == (b.nAvail + 1) * b.width;
    }
  }

  /** The slab that is written overlaps no other slab in use. */
  ghost predicate Separate(b: Pool, i: nat, p: nat)
    requires IsOpen(b, i) && b.nAvail <= |b.slabs|
  {
    && p + b.width <= |b.mem|
    && Apart(p, b.caches[i].cons, b.width)
    && (p != b.caches[i].prod ==> Apart(p, b.caches[i].prod, b.width))
    && forall k | 0 <= k < b.nAvail :: Apart(p, b.slabs[k], b.width)
  }

  lemma FullStands(b: Pool, i: nat, p: nat, o: nat, y: Addr, x: Addr)
    requires IsOpen(b, i) && b.nAvail <= |b.slabs| && Separate(b, i, p) && o < b.width
    ensures InFull(b.mem[p + o := y], b.slabs, b.nAvail, b.width, x) == InFull(b.mem, b.slabs, b.nAvail, b.width, x)
  {
    forall k | 0 <= k < b.nAvail
      ensures In(b.mem[p + o := y], b.slabs[k], b.width, x) == In(b.mem, b.slabs[k], b.width, x)
    {
      StoreElsewhere(b.mem, p, o, y, b.slabs[k], b.width, b.width, x);
    }
    hide In;
    SameFull(b.mem, b.mem[p + o := y], b.slabs, b.slabs, b.nAvail, b.width, x);
  }

  lemma LocalPlaces(b: Pool, i: nat, y: Addr, x: Addr)
    requires CanGive(b, i) && Shape(b) && b.caches[i].nProd < b.width && y in b.hands
    requires Separate(b, i, b.caches[i].prod)
    requires forall j | 0 <= j < |b.caches| && j != i ::
               Held(Give(b, i, y).mem, b.caches[j], x) == Held(b.mem, b.caches[j], x)
    ensures Places(Give(b, i, y), x) == Places(b, x)
  {
    hide In, Total;
    var (r, c) := (Give(b, i, y), b.caches[i]);
    OneHolding(b.mem, r.mem, b.caches, i, r.caches[i], x);
    StoreAtEnd(b.mem, c.prod, c.nProd, y, x);
    StoreElsewhere(b.mem, c.prod, c.nProd, y, c.cons, c.nCons, b.width, x);
    FullStands(b, i, c.prod, c.nProd, y, x);
  }

  lemma TradePlaces(b: Pool, i: nat, y: Addr, x: Addr)
    requires CanGive(b, i) && Shape(b) && b.caches[i].nProd == b.width && y in b.hands
    requires Separate(b, i, b.slabs[b.nAvail]) && b.slabs[b.nAvail] != b.caches[i].prod
    requires forall j | 0 <= j < |b.caches| && j != i ::
               Held(Give(b, i, y).mem, b.caches[j], x) == Held(b.mem, b.caches[j], x)
    ensures Places(Give(b, i, y), x) == Places(b, x)
  {
    hide In, Total;
    var (r, c, empty) := (Give(b, i, y), b.caches[i], b.slabs[b.nAvail]);
    OneHolding(b.mem, r.mem, b.caches, i, r.caches[i], x);
    EmptyPrefix(b.mem, empty, x);
    StoreAtEnd(b.mem, empty, 0, y, x);
    StoreElsewhere(b.mem, empty, 0, y, c.cons, c.nCons, b.width, x);
    StoreElsewhere(b.mem, empty, 0, y, c.prod, b.width, b.width, x);
    FullStands(b, i, empty, 0, y, x);
    SameFull(r.mem, r.mem, b.slabs, r.slabs, b.nAvail, b.width, x);
  }

  /** Where the next address goes. */
  ghost function Target(b: Pool, i: nat): nat
    requires CanGive(b, i)
  {
    if b.caches[i].nProd < b.width then b.caches[i].prod else b.slabs[b.nAvail]
  }

  lemma TargetSeparate(b: Pool, ptrs: set<nat>, addrs: Addr -> nat, i: nat)
    requires Sound(b, ptrs, addrs) && CanGive(b, i)
    ensures Target(b, i) in ptrs && Separate(b, i, Target(b, i))
    ensures Target(b, i) == b.caches[i].prod || Target(b, i) in b.slabs
    ensures b.caches[i].nProd == b.width ==> Target(b, i) != b.caches[i].prod
  {
    CachePointer(b, ptrs, addrs, i);
    SlabPointers(b, ptrs, addrs);
  }

  lemma GiveOthers(b: Pool, ptrs: set<nat>, addrs: Addr -> nat, i: nat, y: Addr, x: Addr)
    requires Sound(b, ptrs, addrs) && CanGive(b, i) && y in b.hands
    ensures forall j | 0 <= j < |b.caches| && j != i ::
              Held(Give(b, i, y).mem, b.caches[j], x) == Held(b.mem, b.caches[j], x)
  {
    hide Held, In;
    TargetSeparate(b, ptrs, addrs, i);
    var o := if b.caches[i].nProd < b.width then b.caches[i].nProd else 0;
    StoreHeld(b, ptrs, addrs, i, Target(b, i), o, y, x);
    assert Give(b, i, y).mem == b.mem[Target(b, i) + o := y];
  }

  lemma GivePlaces(b: Pool, ptrs: set<nat>, addrs: Addr -> nat, i: nat, y: Addr, x: Addr)
    requires Sound(b, ptrs, addrs) && CanGive(b, i) && y in b.hands
    ensures Places(Give(b, i, y), x) == Places(b, x)
  {
    hide Places, Held, Separate, WellPlaced, Amount, Pointers;
    TargetSeparate(b, ptrs, addrs, i);
    GiveOthers(b, ptrs, addrs, i, y, x);
    if b.caches[i].nProd < b.width {
      LocalPlaces(b, i, y, x);
    } else {
      TradePlaces(b, i, y, x);
    }
  }

  lemma GiveSound(b: Pool, ptrs: set<nat>, addrs: Addr -> nat, i: nat, y: Addr)
    requires Sound(b, ptrs, addrs) && IsOpen(b, i) && y in b.hands
    requires CanGive(b, i)
    ensures Sound(Give(b, i, y), ptrs, addrs) && Amount(Give(b, i, y)) == Amount(b)
  {
    hide Pointers, Places, Amount, WellPlaced;
    GivePointers(b, i, y, 0);
    forall p: nat { GivePointers(b, i, y, p); }
    forall x: Addr { GivePlaces(b, ptrs, addrs, i, y, x); }
  }

  lemma GiveKeeps(b: Pool, ptrs: set<nat>, addrs: Addr -> nat, i: nat, y: Addr)
    requires Inv(b, ptrs, addrs) && IsOpen(b, i) && y in b.hands
    ensures CanGive(b, i) && Inv(Give(b, i, y), ptrs, addrs)
  {
    CachePointer(b, ptrs, addrs, i);
    SlabPointers(b, ptrs, addrs);
    if b.caches[i].nProd == b.width {
      EmptySlabLeft(b, ptrs, addrs, i);
    }
    assert CanGive(b, i);
    hide Sound, Amount;
    GiveSound(b, ptrs, addrs, i, y);
  }

  lemma OpenShape(b: Pool)
    requires Shape(b) && b.nRes > 0
    ensures CanOpen(b) && Shape(Open(b)) && Amount(Open(b)) == Amount(b)
  {
    hide Total;
    var r := Open(b);
    TotalSnoc(Sizes(b.caches), 0);
    assert Sizes(r.caches) == Sizes(b.caches) + [0];
    TotalSnoc(Opened(b.caches), 1);
    assert Opened(r.caches) == Opened(b.caches) + [1];
  }

  lemma OpenPointers(b: Pool, p: nat)
    requires Shape(b) && b.nRes > 0
    ensures Pointers(Open(b), p) == Pointers(b, p)
  {
    hide Total, Count;
    var r := Open(b);
    var n := b.nRes - 2;
    var c := r.caches[|b.caches|];
    TotalSnoc(Uses1(b.caches, p), Uses(c, p));
    assert Uses1(r.caches, p) == Uses1(b.caches, p) + [Uses(c, p)];
    assert b.reserved[..n + 2] == b.reserved[..n] + [b.reserved[n]] + [b.reserved[n + 1]];
    CountSnoc(b.reserved[..n], b.reserved[n], p);
    CountSnoc(b.reserved[..n] + [b.reserved[n]], b.reserved[n + 1], p);
  }

  lemma OpenPlaces(b: Pool, x: Addr)
    requires Shape(b) && b.nRes > 0
    ensures Places(Open(b), x) == Places(b, x)
  {
    var r := Open(b);
    var c := r.caches[|b.caches|];
    EmptyPrefix(b.mem, c.cons, x);
    EmptyPrefix(b.mem, c.prod, x);
    TotalSnoc(Held1(b.mem, b.caches, x), 0);
    assert Held1(r.mem, r.caches, x) == Held1(b.mem, b.caches, x) + [0];
  }

  lemma OpenKeeps(b: Pool, ptrs: set<nat>, addrs: Addr -> nat)
    requires Inv(b, ptrs, addrs)
    ensures CanOpen(b) && Inv(Open(b), ptrs, addrs)
  {
    hide Pointers, Places, Amount;
    if b.nRes > 0 {
      OpenShape(b);
      forall p: nat { OpenPointers(b, p); }
      forall x: Addr { OpenPlaces(b, x); }
    }
  }

  lemma CloseShape(b: Pool, i: nat)
    requires Shape(b) && CanClose(b, i)
    requires var c := b.caches[i]; c.cons + b.width <= |b.mem| && c.prod + b.width <= |b.mem|
    ensures Shape(Close(b, i)) && Amount(Close(b, i)) == Amount(b)
  {
    assert |Contents(b.mem, b.caches[i])| == Size(b.caches[i]);
    hide Contents;
    OneCache(b.caches, i, Closed, 0);
    hide Total;
  }

  lemma ClosePointers(b: Pool, i: nat, p: nat)
    requires Shape(b) && CanClose(b, i)
    ensures Pointers(Close(b, i), p) == Pointers(b, p)
  {
    hide Total, Count;
    var (r, c, n) := (Close(b, i), b.caches[i], b.nRes);
    OneCache(b.caches, i, Closed, p);
    assert r.reserved[..n + 2] == b.reserved[..n] + [c.prod] + [c.cons];
    CountSnoc(b.reserved[..n], c.prod, p);
    CountSnoc(b.reserved[..n] + [c.prod], c.cons, p);
  }

  lemma ClosePlaces(b: Pool, i: nat, x: Addr)
    requires Shape(b) && CanClose(b, i)
    requires var c := b.caches[i]; c.cons + b.width <= |b.mem| && c.prod + b.width <= |b.mem|
    ensures Places(Close(b, i), x) == Places(b, x)
  {
    hide Total;
    OneHolding(b.mem, b.mem, b.caches, i, Closed, x);
  }

  lemma CloseKeeps(b: Pool, ptrs: set<nat>, addrs: Addr -> nat, i: nat)
    requires Inv(b, ptrs, addrs) && IsOpen(b, i)
    ensures CanClose(b, i) && Inv(Close(b, i), ptrs, addrs)
  {
    CachePointer(b, ptrs, addrs, i);
    TotalUpdate(Opened(b.caches), i, 0);
    hide Pointers, Places, Amount, Total;
    CloseShape(b, i);
    forall p: nat { ClosePointers(b, i, p); }
    forall x: Addr { ClosePlaces(b, i, x); }
  }

  // ---------------------------------------------------------------- all runs

  datatype Op = OpenOp | CheckOp(i: nat, n: nat) | TakeOp(i: nat) | GiveOp(i: nat, x: Addr) | CloseOp(i: nat)

  /** What the clients are obliged to: they use open caches, take no more than they
      were licensed, and give back only what they hold. */
  predicate Allowed(b: Pool, op: Op) {
    match op
    case OpenOp => true
    case CheckOp(i, _) => IsOpen(b, i)
    case TakeOp(i) => IsOpen(b, i) && b.caches[i].nCons > 0
    case GiveOp(i, x) => IsOpen(b, i) && x in b.hands
    case CloseOp(i) => IsOpen(b, i)
  }

  /** Every array access of the operation is inside its array. */
  predicate Safe(b: Pool, op: Op) {
    match op
    case OpenOp => CanOpen(b)
    case CheckOp(i, _) => CanCheck(b, i)
    case TakeOp(i) => CanTake(b, i)
    case GiveOp(i, _) => CanGive(b, i)
    case CloseOp(i) => CanClose(b, i)
  }

  function Apply(b: Pool, op: Op): Pool
    requires Safe(b, op)
  {
    match op
    case OpenOp => Open(b)
    case CheckOp(i, _) => Check(b, i)
    case TakeOp(i) => Take(b, i)
    case GiveOp(i, x) => Give(b, i, x)
    case CloseOp(i) => Close(b, i)
  }

  /** A run; operations that are not allowed are not performed. */
  function RunOps(b: Pool, ops: seq<Op>): Pool {
    if ops == [] then b
    else
      var r := RunOps(b, ops[..|ops| - 1]);
      var op := ops[|ops| - 1];
      if Allowed(r, op) && Safe(r, op) then Apply(r, op) else r
  }

  lemma ApplyKeeps(b: Pool, ptrs: set<nat>, addrs: Addr -> nat, op: Op)
    requires Inv(b, ptrs, addrs) && Allowed(b, op)
    ensures Safe(b, op) && Inv(Apply(b, op), ptrs, addrs)
  {
    hide Inv;
    match op {
      case OpenOp => OpenKeeps(b, ptrs, addrs);
      case CheckOp(i, _) => CheckKeeps(b, ptrs, addrs, i);
      case TakeOp(i) => TakeKeeps(b, ptrs, addrs, i);
      case GiveOp(i, x) => GiveKeeps(b, ptrs, addrs, i, x);
      case CloseOp(i) => CloseKeeps(b, ptrs, addrs, i);
    }
  }

  lemma {:induction false} RunKeeps(b: Pool, ptrs: set<nat>, addrs: Addr -> nat, ops: seq<Op>)
    requires Inv(b, ptrs, addrs)
    ensures Inv(RunOps(b, ops), ptrs, addrs)
  {
    hide Inv;
    if ops != [] {
      var n := |ops| - 1;
      RunKeeps(b, ptrs, addrs, ops[..n]);
      if Allowed(RunOps(b, ops[..n]), ops[n]) {
        ApplyKeeps(RunOps(b, ops[..n]), ptrs, addrs, ops[n]);
      }
    }
  }

  // ------------------------------------------------------------ the fresh pool

  /** Address x is one of those the pool was created with. */
  predicate IsFrame(nSlabs: nat, width: nat, bufferSize: nat, x: Addr) {
    exists i: nat :: i < nSlabs * width && x == i * bufferSize
  }

  lemma NextSlab(mem: seq<Addr>, a: nat, width: nat, x: Addr)
    requires a + width <= |mem|
    ensures Count(mem[..a + width], x) == Count(mem[..a], x) + In(mem, a, width, x)
  {
    CountSplit(mem[..a + width], a, x);
    assert mem[..a + width][..a] == mem[..a];
    assert mem[..a + width][a..] == mem[a..a + width];
  }

  lemma {:induction false} InCut(mem: seq<Addr>, total: nat, n: nat, width: nat, x: Addr)
    requires width >= 1 && n <= total && n * width <= |mem|
    ensures InFull(mem, Cut(total, 0, width), n, width, x) == Count(mem[..n * width], x)
  {
    if n == 0 {
      assert mem[..n * width] == [];
    }
    hide Count, In;
    if n > 0 {
      var a := (n - 1) * width;
      assert n * width == a + width;
      InCut(mem, total, n - 1, width, x);
      NextSlab(mem, a, width, x);
      assert Cut(total, 0, width)[n - 1] == a;
    }
  }

  lemma {:induction false} FramesOnce(n: nat, bufferSize: nat, x: Addr)
    requires bufferSize >= 1
    ensures Count(seq(n, i requires 0 <= i < n => i * bufferSize), x) ==
            Bit(exists i: nat :: i < n && x == i * bufferSize)
  {
    if n > 0 {
      FramesOnce(n - 1, bufferSize, x);
      var s := seq(n, i requires 0 <= i < n => i * bufferSize);
      assert s == s[..n - 1] + [(n - 1) * bufferSize];
      assert s[..n - 1] == seq(n - 1, i requires 0 <= i < n - 1 => i * bufferSize);
      if x == (n - 1) * bufferSize {
        forall i: nat | i < n - 1
          ensures x != i * bufferSize
        {
          Steps(i, n - 1, bufferSize);
        }
      }
    }
  }

  lemma FreshMem(nSlabs: nat, nReserved: nat, width: nat, bufferSize: nat, junk: seq<Addr>)
    requires width >= 1 && |junk| == nReserved * width
    ensures var b := Fresh(nSlabs, nReserved, width, bufferSize, junk);
            && |b.mem| == (nSlabs + nReserved) * width && nSlabs * width <= |b.mem|
            && b.mem[..nSlabs * width] ==
               seq(nSlabs * width, i requires 0 <= i < nSlabs * width => i * bufferSize)
  {
    assert (nSlabs + nReserved) * width == nSlabs * width + nReserved * width;
  }

  lemma FreshPointers(nSlabs: nat, nReserved: nat, width: nat, bufferSize: nat, junk: seq<Addr>, p: nat)
    requires width >= 1
    ensures var (b, all) := (Fresh(nSlabs, nReserved, width, bufferSize, junk), Cut(nSlabs + nReserved, 0, width));
            Pointers(b, p) == Bit(p in all)
  {
    var (b, all) := (Fresh(nSlabs, nReserved, width, bufferSize, junk), Cut(nSlabs + nReserved, 0, width));
    CutTwice(nSlabs, nReserved, width);
    CutPlaced(nSlabs + nReserved, width);
    assert b.reserved[..nReserved] == b.reserved;
    assert b.slabs + b.reserved == all;
    CountSplit(all, nSlabs, p);
    assert all[..nSlabs] == b.slabs && all[nSlabs..] == b.reserved;
    CountDistinct(all, p);
  }

  lemma {:induction false} CountDistinct(s: seq<nat>, p: nat)
    requires forall i, j | 0 <= i < |s| && 0 <= j < |s| && i != j :: s[i] != s[j]
    ensures Count(s, p) == Bit(p in s)
  {
    if s != [] {
      var n := |s| - 1;
      CountDistinct(s[..n], p);
      CountSplit(s, n, p);
      assert s[n..] == [s[n]];
    }
  }

  lemma FreshPlaces(nSlabs: nat, nReserved: nat, width: nat, bufferSize: nat, junk: seq<Addr>, x: Addr)
    requires width >= 1 && bufferSize >= 1 && |junk| == nReserved * width
    ensures Places(Fresh(nSlabs, nReserved, width, bufferSize, junk), x) == Bit(IsFrame(nSlabs, width, bufferSize, x))
  {
    var b := Fresh(nSlabs, nReserved, width, bufferSize, junk);
    FreshMem(nSlabs, nReserved, width, bufferSize, junk);
    InCut(b.mem, nSlabs, nSlabs, width, x);
    FramesOnce(nSlabs * width, bufferSize, x);
    hide Count, InFull, Cut;
    assert Held1(b.mem, b.caches, x) == [];
  }

  /** The slabs of a fresh pool. */
  ghost function FreshSlabs(nSlabs: nat, nReserved: nat, width: nat): set<nat> {
    var all := Cut(nSlabs + nReserved, 0, width);
    set p | p in all
  }

  /** Every address of the pool is in one place, every other in none. */
  lemma FreshInv(nSlabs: nat, nReserved: nat, width: nat, bufferSize: nat, junk: seq<Addr>)
    requires width >= 1 && bufferSize >= 1 && nReserved % 2 == 0 && |junk| == nReserved * width
    ensures Inv(Fresh(nSlabs, nReserved, width, bufferSize, junk), FreshSlabs(nSlabs, nReserved, width),
                x => Bit(IsFrame(nSlabs, width, bufferSize, x)))
  {
    var b := Fresh(nSlabs, nReserved, width, bufferSize, junk);
    FreshMem(nSlabs, nReserved, width, bufferSize, junk);
    CutPlaced(nSlabs + nReserved, width);
    hide Pointers, Places;
    forall p: nat
      ensures Pointers(b, p) == Bit(p in FreshSlabs(nSlabs, nReserved, width))
    {
      FreshPointers(nSlabs, nReserved, width, bufferSize, junk, p);
    }
    forall x: Addr
      ensures Places(b, x) == Bit(IsFrame(nSlabs, width, bufferSize, x))
    {
      FreshPlaces(nSlabs, nReserved, width, bufferSize, junk, x);
    }
  }

  // ------------------------------------------------------------ main results

  /** Conservation: after any run every frame address is in exactly one full slab,
      cache prefix, client's hand or retired slab, and any other value in none; the
      slabs in use are the original ones, each once; and no allowed operation ever
      indexes outside its arrays. */
  lemma Conservation(nSlabs: nat, nReserved: nat, width: nat, bufferSize: nat, junk: seq<Addr>, ops: seq<Op>)
    requires width >= 1 && bufferSize >= 1 && nReserved % 2 == 0 && |junk| == nReserved * width
    ensures var b := RunOps(Fresh(nSlabs, nReserved, width, bufferSize, junk), ops);
            && b.nAvail <= |b.slabs| && b.nRes <= |b.reserved|
            && (forall x: Addr :: Places(b, x) == Bit(IsFrame(nSlabs, width, bufferSize, x)))
            && (forall p: nat :: Pointers(b, p) == Bit(p in FreshSlabs(nSlabs, nReserved, width)))
            && (forall op: Op :: Allowed(b, op) ==> Safe(b, op))
  {
    var b0 := Fresh(nSlabs, nReserved, width, bufferSize, junk);
    var ptrs := FreshSlabs(nSlabs, nReserved, width);
    var addrs := x => Bit(IsFrame(nSlabs, width, bufferSize, x));
    FreshInv(nSlabs, nReserved, width, bufferSize, junk);
    RunKeeps(b0, ptrs, addrs, ops);
    var b := RunOps(b0, ops);
    forall op: Op | Allowed(b, op)
      ensures Safe(b, op)
    {
      ApplyKeeps(b, ptrs, addrs, op);
    }
  }

  /** A full producer slab whose client still holds an address implies that an empty
      slab can be had, in every run. */
  lemma AlwaysAnEmptySlab(nSlabs: nat, nReserved: nat, width: nat, bufferSize: nat, junk: seq<Addr>,
                          ops: seq<Op>, i: nat)
    requires width >= 1 && bufferSize >= 1 && nReserved % 2 == 0 && |junk| == nReserved * width
    requires var b := RunOps(Fresh(nSlabs, nReserved, width, bufferSize, junk), ops);
             IsOpen(b, i) && b.caches[i].nProd == width && |b.hands| > 0 && b.width == width
    ensures var b := RunOps(Fresh(nSlabs, nReserved, width, bufferSize, junk), ops);
            b.nAvail < |b.slabs|
  {
    var b0 := Fresh(nSlabs, nReserved, width, bufferSize, junk);
    var ptrs := FreshSlabs(nSlabs, nReserved, width);
    var addrs := x => Bit(IsFrame(nSlabs, width, bufferSize, x));
    FreshInv(nSlabs, nReserved, width, bufferSize, junk);
    RunKeeps(b0, ptrs, addrs, ops);
    EmptySlabLeft(RunOps(b0, ops), ptrs, addrs, i);
  }

  /** How many of the operations take from cache i. */
  function Takes(ops: seq<Op>, i: nat): nat {
    if ops == [] then 0
    else Takes(ops[..|ops| - 1], i) + Bit(ops[|ops| - 1] == TakeOp(i))
  }

  /** Neither checks nor closes cache i. */
  predicate SparesCache(op: Op, i: nat) {
    match op
    case CheckOp(j, _) => j != i
    case CloseOp(j) => j != i
    case _ => true
  }

  lemma OneTake(b: Pool, i: nat, op: Op)
    requires IsOpen(b, i) && SparesCache(op, i) && Allowed(b, op) && Safe(b, op)
    ensures var r := Apply(b, op);
            IsOpen(r, i) && r.caches[i].nCons == b.caches[i].nCons - Bit(op == TakeOp(i))
  {
  }

  /** As long as there are no more of them than the cache has buffers, every take of a run
      is performed and lowers the counter by one, whatever is given back in between and
      whatever the other caches do. */
  lemma {:induction false} TakesSucceed(b: Pool, ptrs: set<nat>, addrs: Addr -> nat, i: nat, ops: seq<Op>)
    requires Inv(b, ptrs, addrs) && IsOpen(b, i) && Takes(ops, i) <= b.caches[i].nCons
    requires forall k | 0 <= k < |ops| :: SparesCache(ops[k], i)
    ensures var r := RunOps(b, ops);
            IsOpen(r, i) && r.caches[i].nCons == b.caches[i].nCons - Takes(ops, i)
  {
    hide Inv;
    if ops != [] {
      var n := |ops| - 1;
      TakesSucceed(b, ptrs, addrs, i, ops[..n]);
      RunKeeps(b, ptrs, addrs, ops[..n]);
      var r := RunOps(b, ops[..n]);
      if Allowed(r, ops[n]) {
        ApplyKeeps(r, ptrs, addrs, ops[n]);
        OneTake(r, i, ops[n]);
      }
      hide Apply, Safe;
    }
  }

  /** What a check leaves a cache with, and what it returns: nothing only if the cache and
      the pool had nothing; then as much of the request as the cache has, and that is all
      of a request that fetched a slab, however large. */
  lemma LicenceExact(b: Pool, i: nat, n: nat)
    requires CanCheck(b, i) && b.width >= 1
    ensures IsOpen(Check(b, i), i)
    ensures var (had, has) := (b.caches[i].nCons, Check(b, i).caches[i].nCons);
            && has == (if had > 0 then had else if b.nAvail > 0 then b.width else 0)
            && (has == 0 <==> had == 0 && b.nAvail == 0)
            && (n <= b.width ==> Licence(b, i, n) == if n < has then n else has)
            && (n > b.width ==> Licence(b, i, n) == if had == 0 && b.nAvail > 0 then n else if n < has then n else has)
  {
  }

  /** What bcache_cons_check returns for a request of at most the slab size licenses that
      many takes, whatever is given back in between and whatever the other caches do; for
      a larger request that is so unless the slab was fetched just now. */
  lemma LicenceHolds(b: Pool, ptrs: set<nat>, addrs: Addr -> nat, i: nat, n: nat, ops: seq<Op>)
    requires Inv(b, ptrs, addrs) && IsOpen(b, i)
    requires forall k | 0 <= k < |ops| :: SparesCache(ops[k], i)
    ensures CanCheck(b, i) && IsOpen(Check(b, i), i)
    ensures var r := Check(b, i);
            Licence(b, i, n) <= r.caches[i].nCons <==> n <= b.width || b.caches[i].nCons != 0 || b.nAvail == 0
    ensures var (r, t) := (Check(b, i), RunOps(Check(b, i), ops));
            Licence(b, i, n) <= r.caches[i].nCons && Takes(ops, i) <= Licence(b, i, n) ==>
              IsOpen(t, i) && t.caches[i].nCons == r.caches[i].nCons - Takes(ops, i)
  {
    CheckKeeps(b, ptrs, addrs, i);
    hide Inv;
    if Licence(b, i, n) <= Check(b, i).caches[i].nCons && Takes(ops, i) <= Licence(b, i, n) {
      TakesSucceed(Check(b, i), ptrs, addrs, i, ops);
    }
  }

  /** A new cache over slabs of one buffer promises five. */
  lemma OverPromise()
    ensures var b := RunOps(Fresh(1, 2, 1, 1, [0, 0]), [OpenOp]);
            IsOpen(b, 0) && CanCheck(b, 0) && Licence(b, 0, 5) == 5 && Check(b, 0).caches[0].nCons == 1
  {
    var b0 := Fresh(1, 2, 1, 1, [0, 0]);
    assert [OpenOp][..0] == [] && RunOps(b0, []) == b0;
    assert RunOps(b0, [OpenOp]) == Open(b0);
  }
}
