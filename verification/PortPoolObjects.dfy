/** The second buffer pool as objects updated in place: the pool, its one cache with a
    receiving and a transmitting half, and the bursts that use them. */
module PortPoolObjects {
  import opened Bits
  import opened SlabMemory
  import opened PortPool
  import S = SharedPool

  class BPool {
    const width: nat
    const slabs: array<nat>
    const buffers: array<Addr>
    var nAvail: nat

    /** The pool is as bpool_init leaves it. */
    ghost predicate Fresh(bufferSize: nat)
      reads this, slabs, buffers
    {
      && width >= 1 && bufferSize >= 1 && nAvail == slabs.Length
      && slabs[..] == Cut(slabs.Length, 0, width)
      && buffers[..] == Frames(slabs.Length * width, bufferSize)
    }

    /** bpool_init: as many slabs as hold nBuffers, rounded up. */
    constructor (nBuffers: nat, width: nat, bufferSize: nat)
      requires width >= 1 && bufferSize >= 1
      ensures Fresh(bufferSize) && this.width == width && fresh(slabs) && fresh(buffers)
      ensures (slabs.Length - 1) * width < nBuffers <= slabs.Length * width
    {
      var nSlabs := (nBuffers + width - 1) / width;
      assert nSlabs * width <= nBuffers + width - 1 < nSlabs * width + width;
      this.width := width;
      slabs := new nat[nSlabs](i => i * width);
      buffers := new Addr[nSlabs * width];
      nAvail := nSlabs;
      new;
      var n := nSlabs * width;
      for i := 0 to n
        modifies buffers
        invariant forall k | 0 <= k < i :: buffers[k] == k * bufferSize
      {
        buffers[i] := i * bufferSize;
      }
    }

    // The two sections under the pool's lock, the same for both halves.

    /** Trades an empty slab for the full slab on top. */
    method TakeFull(empty: nat) returns (full: nat)
      requires 0 < nAvail <= slabs.Length
      modifies this`nAvail, slabs
      ensures nAvail == old(nAvail) - 1 && full == old(slabs[nAvail - 1])
      ensures slabs[..] == old(slabs[..])[nAvail := empty]
    {
      var nAvailable := nAvail - 1;
      full := slabs[nAvailable];
      slabs[nAvailable] := empty;
      nAvail := nAvailable;
    }

    /** Trades a full slab for the one listed above the available ones. */
    method PutFull(full: nat) returns (empty: nat)
      requires nAvail < slabs.Length
      modifies this`nAvail, slabs
      ensures nAvail == old(nAvail) + 1 && empty == old(slabs[nAvail])
      ensures slabs[..] == old(slabs[..])[old(nAvail) := full]
    {
      var nAvailable := nAvail;
      empty := slabs[nAvailable];
      slabs[nAvailable] := full;
      nAvail := nAvailable + 1;
    }
  }

  const MAX_BURST: nat := 20

  function Least(x: nat, y: nat, z: nat): (r: nat)
    ensures r <= x && r <= y && r <= z && (r == x || r == y || r == z)
  {
    if x <= y && x <= z then x else if y <= z then y else z
  }

  /** The received frames that a burst gives back to its cache: all but those whose
      destination has no queue. */
  function Returned(frames: seq<(Addr, bool)>): seq<Addr> {
    if frames == [] then []
    else
      var last := frames[|frames| - 1];
      Returned(frames[..|frames| - 1]) + (if last.1 then [last.0] else [])
  }

  lemma {:induction false} ReturnedPrefix(frames: seq<(Addr, bool)>, i: nat)
    requires i <= |frames|
    ensures multiset(Returned(frames[..i])) <= multiset(Returned(frames))
  {
    if i < |frames| {
      ReturnedPrefix(frames[..|frames| - 1], i);
      assert frames[..|frames| - 1][..i] == frames[..i];
    } else {
      assert frames[..i] == frames;
    }
  }

  /** Where a frame with this address was received and not lost. */
  ghost function Kept(frames: seq<(Addr, bool)>, x: Addr): set<int> {
    set i | 0 <= i < |frames| && frames[i] == (x, true)
  }

  lemma KeptNext(frames: seq<(Addr, bool)>, x: Addr)
    requires frames != []
    ensures var n := |frames| - 1;
            |Kept(frames, x)| == |Kept(frames[..n], x)| + (if frames[n] == (x, true) then 1 else 0)
  {
    var n := |frames| - 1;
    var (a, b) := (Kept(frames[..n], x), Kept(frames, x));
    assert n !in a && b == if frames[n] == (x, true) then a + {n} else a;
  }

  /** An address is given back as often as that. */
  lemma {:induction false} ReturnedCount(frames: seq<(Addr, bool)>, x: Addr)
    ensures multiset(Returned(frames))[x] == |Kept(frames, x)|
  {
    if frames == [] {
      assert Kept(frames, x) == {};
    } else {
      var n := |frames| - 1;
      ReturnedCount(frames[..n], x);
      KeptNext(frames, x);
      hide Kept;
      var last := if frames[n].1 then [frames[n].0] else [];
      assert Returned(frames) == Returned(frames[..n]) + last;
    }
  }

  function Reversed(s: seq<Addr>): (r: seq<Addr>)
    ensures |r| == |s|
  {
    seq(|s|, i requires 0 <= i < |s| => s[|s| - 1 - i])
  }

  lemma ReversedNext(s: seq<Addr>, x: Addr)
    ensures Reversed(s + [x]) == [x] + Reversed(s)
  {
  }

  /** What was taken from a stock is as different and as free as the stock. */
  lemma TakenFrom(stock: seq<Addr>, left: seq<Addr>, taken: seq<Addr>)
    requires stock == left + Reversed(taken)
    requires forall i, j | 0 <= i < j < |stock| :: stock[i] != stock[j]
    ensures forall i, j | 0 <= i < j < |taken| :: taken[i] != taken[j]
    ensures forall x | x in taken :: x in stock
  {
    assert forall i | 0 <= i < |taken| :: taken[i] == stock[|left| + (|taken| - 1 - i)];
  }

  /** Giving back one more of the addresses held. */
  lemma OneMore(held: multiset<Addr>, done: seq<Addr>, x: Addr)
    requires multiset(done + [x]) <= held
    ensures x in held - multiset(done)
    ensures held - multiset(done) - multiset{x} == held - multiset(done + [x])
  {
    assert multiset(done + [x])[x] == multiset(done)[x] + 1;
  }

  lemma ReturnedNone(frames: seq<(Addr, bool)>)
    requires frames == []
    ensures Returned(frames) == []
  {
  }

  lemma ReturnedNext(frames: seq<(Addr, bool)>, i: nat)
    requires i < |frames|
    ensures Returned(frames[..i + 1]) ==
              if frames[i].1 then Returned(frames[..i]) + [frames[i].0] else Returned(frames[..i])
    ensures multiset(Returned(frames[..i + 1])) <= multiset(Returned(frames))
  {
    assert frames[..i + 1][..i] == frames[..i];
    ReturnedPrefix(frames, i + 1);
  }

  /** A cache with the right fields is the new cache of the model. */
  lemma InitFields(n: nat, width: nat, bufferSize: nat, v: Port, stale: seq<nat>)
    requires n >= 4 && width >= 1 && bufferSize >= 1
    requires v.width == width && v.mem == Frames(n * width, bufferSize) && v.slabs == Cut(n, 0, width)
    requires v.nAvail == n - 4 && |v.slabs| == n && stale == v.slabs[n - 4..n]
    requires v.rx == Half(v.slabs[n - 1], v.slabs[n - 2], width, 0, multiset{}, 0)
    requires v.tx == Half(v.slabs[n - 3], v.slabs[n - 4], width, 0, multiset{}, 0)
    requires v.discarded == Window(v.mem, v.rx.prod, width) + Window(v.mem, v.tx.prod, width)
    ensures v == Init(n, width, bufferSize) && Inv(v, stale, SlabSet(n, width), FrameCount(n, width, bufferSize))
  {
    InitInv(n, width, bufferSize);
    assert stale == v.slabs[n - 4..];
    hide Inv;
  }

  class BCache {
    const bp: BPool
    var slabCons: nat
    var slabProd: nat
    var slabConsTx: nat
    var slabProdTx: nat
    var nCons: nat
    var nProd: nat
    var nConsTx: nat
    var nProdTx: nat

    ghost var hands: multiset<Addr>
    ghost var handsTx: multiset<Addr>
    ghost var loans: int
    ghost var loansTx: int
    ghost const discarded: multiset<Addr>
    ghost const stale: seq<nat>
    ghost const ptrs: set<nat>
    ghost const bufferSize: nat

    ghost function View(): Port
      reads this, bp, bp.slabs, bp.buffers
    {
      Port(bp.width, bp.buffers[..], bp.slabs[..], bp.nAvail,
           Half(slabCons, slabProd, nCons, nProd, hands, loans),
           Half(slabConsTx, slabProdTx, nConsTx, nProdTx, handsTx, loansTx), discarded)
    }

    ghost predicate Valid()
      reads this, bp, bp.slabs, bp.buffers
    {
      Inv(View(), stale, ptrs, Addrs())
    }

    /** How often each address occurs in the whole pool. */
    ghost function Addrs(): Addr -> nat {
      FrameCount(bp.slabs.Length, bp.width, bufferSize)
    }

    /** The frame addresses that a half can still take. */
    ghost function StockOf(s: Side): seq<Addr>
      reads this, bp, bp.slabs, bp.buffers
    {
      Stock(View(), s)
    }

    ghost predicate IsFrame(x: Addr) {
      S.IsFrame(bp.slabs.Length, bp.width, bufferSize, x)
    }

    constructor Raw(bp: BPool, ghost bufferSize: nat)
      requires 4 <= bp.nAvail <= bp.slabs.Length
      ensures this.bp == bp && nCons == bp.width && nConsTx == bp.width && nProd == 0 && nProdTx == 0
      ensures slabCons == bp.slabs[bp.nAvail - 1] && slabProd == bp.slabs[bp.nAvail - 2]
      ensures slabConsTx == bp.slabs[bp.nAvail - 3] && slabProdTx == bp.slabs[bp.nAvail - 4]
      ensures hands == handsTx == multiset{} && loans == loansTx == 0 && stale == bp.slabs[bp.nAvail - 4..bp.nAvail]
      ensures discarded == Window(bp.buffers[..], slabProd, bp.width) + Window(bp.buffers[..], slabProdTx, bp.width)
      ensures ptrs == SlabSet(bp.slabs.Length, bp.width) && this.bufferSize == bufferSize
    {
      this.bp := bp;
      nCons, nProd, nConsTx, nProdTx := bp.width, 0, bp.width, 0;
      slabCons := bp.slabs[bp.nAvail - 1];
      slabProd := bp.slabs[bp.nAvail - 2];
      slabConsTx := bp.slabs[bp.nAvail - 3];
      slabProdTx := bp.slabs[bp.nAvail - 4];
      hands, handsTx, loans, loansTx := multiset{}, multiset{}, 0, 0;
      discarded := Window(bp.buffers[..], bp.slabs[bp.nAvail - 2], bp.width)
        + Window(bp.buffers[..], bp.slabs[bp.nAvail - 4], bp.width);
      stale := bp.slabs[bp.nAvail - 4..bp.nAvail];
      ptrs := SlabSet(bp.slabs.Length, bp.width);
      this.bufferSize := bufferSize;
    }

    /** bcache_init: null exactly for an empty pool.  The four slabs come from the top of
        the available ones; on a fresh pool that makes the cache of the model. */
    static method Create(bp: BPool, ghost bufferSize: nat) returns (bc: BCache?)
      requires bp.nAvail <= bp.slabs.Length < TWO_63 && CanInit(bp.nAvail, bp.slabs.Length)
      modifies bp`nAvail
      ensures bc == null <==> old(bp.nAvail) == 0
      ensures bc == null ==> bp.nAvail == old(bp.nAvail)
      ensures bc != null ==>
                && fresh(bc) && bc.bp == bp && 4 <= old(bp.nAvail) && bp.nAvail == old(bp.nAvail) - 4
                && [bc.slabProdTx, bc.slabConsTx, bc.slabProd, bc.slabCons] == bp.slabs[bp.nAvail..bp.nAvail + 4]
                && bc.nCons == bc.nConsTx == bp.width && bc.nProd == bc.nProdTx == 0
      ensures bc != null && old(bp.Fresh(bufferSize)) ==>
                bc.Valid() && bc.View() == Init(bp.slabs.Length, bp.width, bufferSize)
    {
      CanInitIff(bp.nAvail, bp.slabs.Length);
      if bp.nAvail == 0 {
        return null;
      }
      bc := new BCache.Raw(bp, bufferSize);
      bp.nAvail := bp.nAvail - 4;
      if old(bp.Fresh(bufferSize)) {
        hide Inv, Init, Window, Cut, Frames;
        InitFields(bp.slabs.Length, bp.width, bufferSize, bc.View(), bc.stale);
      }
    }

    /** bcache_cons_check. */
    method ConsCheck(n: nat) returns (k: nat)
      requires Valid()
      modifies this`slabCons, this`nCons, this`loans, bp`nAvail, bp.slabs
      ensures Valid() && CanCheck(old(View()))
      ensures View() == Check(old(View()), Rx) && k == Licence(old(View()), Rx, n)
      ensures nCons == if old(nCons) > 0 then old(nCons) else if old(bp.nAvail) > 0 then bp.width else 0
      ensures n <= bp.width ==> k == if n < nCons then n else nCons
      ensures n > bp.width ==>
                k == if old(nCons) == 0 && old(bp.nAvail) > 0 then n else if n < nCons then n else nCons
    {
      ghost var v := View();
      CheckKeeps(v, stale, ptrs, Addrs(), Rx);
      hide Inv, FrameCount, SlabSet;
      if nCons != 0 {
        return if nCons < n then nCons else n;
      }
      if bp.nAvail == 0 {
        return 0;
      }
      slabCons := bp.TakeFull(slabCons);
      nCons := bp.width;
      loans := loans + 1;
      k := n;
      assert View() == Check(v, Rx);
    }

    /** bcache_cons_tx_check. */
    method ConsTxCheck(n: nat) returns (k: nat)
      requires Valid()
      modifies this`slabConsTx, this`nConsTx, this`loansTx, bp`nAvail, bp.slabs
      ensures Valid() && CanCheck(old(View()))
      ensures View() == Check(old(View()), Tx) && k == Licence(old(View()), Tx, n)
      ensures nConsTx == if old(nConsTx) > 0 then old(nConsTx) else if old(bp.nAvail) > 0 then bp.width else 0
      ensures n <= bp.width ==> k == if n < nConsTx then n else nConsTx
      ensures n > bp.width ==>
                k == if old(nConsTx) == 0 && old(bp.nAvail) > 0 then n else if n < nConsTx then n else nConsTx
    {
      ghost var v := View();
      CheckKeeps(v, stale, ptrs, Addrs(), Tx);
      hide Inv, FrameCount, SlabSet;
      if nConsTx != 0 {
        return if nConsTx < n then nConsTx else n;
      }
      if bp.nAvail == 0 {
        return 0;
      }
      slabConsTx := bp.TakeFull(slabConsTx);
      nConsTx := bp.width;
      loansTx := loansTx + 1;
      k := n;
      assert View() == Check(v, Tx);
    }

    /** bcache_cons. */
    method Cons() returns (buffer: Addr)
      requires Valid() && nCons > 0
      modifies this`nCons, this`hands
      ensures Valid() && CanTake(old(View()), Rx)
      ensures View() == Take(old(View()), Rx) && buffer == Top(old(View()), Rx)
      ensures nCons == old(nCons) - 1 && hands == old(hands) + multiset{buffer}
      ensures old(StockOf(Rx)) == StockOf(Rx) + [buffer]
    {
      ghost var v := View();
      TakeKeeps(v, stale, ptrs, Addrs(), Rx);
      TakeStock(v, Rx);
      hide Inv, Stock;
      var n := nCons - 1;
      buffer := bp.buffers[slabCons + n];
      nCons := n;
      hands := hands + multiset{buffer};
      assert View() == Take(v, Rx);
    }

    /** bcache_cons_tx. */
    method ConsTx() returns (buffer: Addr)
      requires Valid() && nConsTx > 0
      modifies this`nConsTx, this`handsTx
      ensures Valid() && CanTake(old(View()), Tx)
      ensures View() == Take(old(View()), Tx) && buffer == Top(old(View()), Tx)
      ensures nConsTx == old(nConsTx) - 1 && handsTx == old(handsTx) + multiset{buffer}
      ensures old(StockOf(Tx)) == StockOf(Tx) + [buffer]
    {
      ghost var v := View();
      TakeKeeps(v, stale, ptrs, Addrs(), Tx);
      TakeStock(v, Tx);
      hide Inv, Stock;
      var n := nConsTx - 1;
      buffer := bp.buffers[slabConsTx + n];
      nConsTx := n;
      handsTx := handsTx + multiset{buffer};
      assert View() == Take(v, Tx);
    }

    /** bcache_prod. */
    method Prod(buffer: Addr)
      requires Valid() && buffer in hands
      modifies this`slabProd, this`nProd, this`hands, this`loans, bp`nAvail, bp.slabs, bp.buffers
      ensures Valid() && CanGive(old(View()), Rx) && View() == Give(old(View()), Rx, buffer)
      ensures hands == old(hands) - multiset{buffer} && StockOf(Rx) == old(StockOf(Rx))
    {
      ghost var v := View();
      GiveKeeps(v, stale, ptrs, Addrs(), Rx, buffer);
      GiveStock(v, stale, ptrs, Addrs(), Rx, buffer);
      hide Inv, Stock;
      hands := hands - multiset{buffer};
      if nProd < bp.width {
        bp.buffers[slabProd + nProd] := buffer;
        nProd := nProd + 1;
        assert View() == Give(v, Rx, buffer);
        return;
      }
      var empty := bp.PutFull(slabProd);
      bp.buffers[empty] := buffer;
      slabProd := empty;
      nProd := 1;
      loans := loans - 1;
      assert View() == Give(v, Rx, buffer);
    }

    /** bcache_prod_tx. */
    method ProdTx(buffer: Addr)
      requires Valid() && buffer in handsTx
      modifies this`slabProdTx, this`nProdTx, this`handsTx, this`loansTx, bp`nAvail, bp.slabs, bp.buffers
      ensures Valid() && CanGive(old(View()), Tx) && View() == Give(old(View()), Tx, buffer)
      ensures handsTx == old(handsTx) - multiset{buffer} && StockOf(Tx) == old(StockOf(Tx))
    {
      ghost var v := View();
      GiveKeeps(v, stale, ptrs, Addrs(), Tx, buffer);
      GiveStock(v, stale, ptrs, Addrs(), Tx, buffer);
      hide Inv, Stock;
      handsTx := handsTx - multiset{buffer};
      if nProdTx < bp.width {
        bp.buffers[slabProdTx + nProdTx] := buffer;
        nProdTx := nProdTx + 1;
        assert View() == Give(v, Tx, buffer);
        return;
      }
      var empty := bp.PutFull(slabProdTx);
      bp.buffers[empty] := buffer;
      slabProdTx := empty;
      nProdTx := 1;
      loansTx := loansTx - 1;
      assert View() == Give(v, Tx, buffer);
    }

    /** The stock of a half consists of different frames that nobody holds. */
    lemma FreeStock(s: Side)
      requires Valid()
      ensures forall i, j | 0 <= i < j < |StockOf(s)| :: StockOf(s)[i] != StockOf(s)[j]
      ensures forall x | x in StockOf(s) :: IsFrame(x) && x !in hands && x !in handsTx
    {
      StockFree(View(), stale, ptrs, bp.slabs.Length, bp.width, bufferSize, s);
      hide Inv, Stock;
    }

    /** The receive loop of a burst: all but the lost frames are given back. */
    method GiveBack(frames: seq<(Addr, bool)>)
      requires Valid() && multiset(Returned(frames)) <= hands
      modifies this`slabProd, this`nProd, this`hands, this`loans, bp`nAvail, bp.slabs, bp.buffers
      ensures Valid() && hands == old(hands) - multiset(Returned(frames)) && StockOf(Rx) == old(StockOf(Rx))
    {
      hide Valid, View, Give, CanGive, StockOf;
      assert Returned(frames[..0]) == [] by {
        ReturnedNone(frames[..0]);
      }
      hide Returned;
      ghost var done := [];
      for i := 0 to |frames|
        invariant Valid() && StockOf(Rx) == old(StockOf(Rx))
        invariant done == Returned(frames[..i]) && hands == old(hands) - multiset(done)
      {
        ReturnedNext(frames, i);
        if frames[i].1 {
          OneMore(old(hands), done, frames[i].0);
          Prod(frames[i].0);
          done := done + [frames[i].0];
        }
      }
      assert frames[..|frames|] == frames;
    }

    /** The refill loop of a burst. */
    method Refill(n: nat) returns (fill: seq<Addr>)
      requires Valid() && n <= nCons
      modifies this`nCons, this`hands
      ensures Valid() && |fill| == n && hands == old(hands) + multiset(fill)
      ensures old(StockOf(Rx)) == StockOf(Rx) + Reversed(fill)
    {
      hide Valid, View, Take, CanTake, Top, StockOf;
      assert Reversed([]) == [];
      hide Reversed;
      fill := [];
      for i := 0 to n
        invariant Valid() && n - i <= nCons
        invariant |fill| == i && hands == old(hands) + multiset(fill)
        invariant old(StockOf(Rx)) == StockOf(Rx) + Reversed(fill)
      {
        var buffer := Cons();
        ReversedNext(fill, buffer);
        fill := fill + [buffer];
      }
    }

    /** port_rx_burst and port_nic_rx_burst: no more frames than the cache has buffers
        for are received, those not lost are given back, and the kernel is handed as
        many fresh ones. */
    method RxBurst(frames: seq<(Addr, bool)>) returns (fill: seq<Addr>)
      requires Valid() && MAX_BURST <= bp.width
      requires multiset(Returned(frames)) <= hands
      modifies this`slabCons, this`nCons, this`slabProd, this`nProd, this`hands, this`loans
      modifies bp`nAvail, bp.slabs, bp.buffers
      ensures Valid()
      ensures var there := if old(nCons) > 0 then old(nCons) else if old(bp.nAvail) > 0 then bp.width else 0;
              |fill| == Least(20, |frames|, there)
      ensures hands == old(hands) - multiset(Returned(frames[..|fill|])) + multiset(fill)
      ensures forall i, j | 0 <= i < j < |fill| :: fill[i] != fill[j]
      ensures forall x | x in fill :: IsFrame(x) && x !in old(hands) && x !in handsTx
    {
      hide Valid, View, Check, Licence, CanCheck, Returned, StockOf, IsFrame;
      var n := ConsCheck(MAX_BURST);
      FreeStock(Rx);
      if |frames| < n {
        n := |frames|;
      }
      if n == 0 {
        assert Returned(frames[..0]) == [] by {
          ReturnedNone(frames[..0]);
        }
        return [];
      }
      ReturnedPrefix(frames, n);
      ghost var stock := StockOf(Rx);
      GiveBack(frames[..n]);
      fill := Refill(n);
      TakenFrom(stock, StockOf(Rx), fill);
    }

    /** The completion loop of a transmit burst. */
    method GiveBackTx(completed: seq<Addr>)
      requires Valid() && multiset(completed) <= handsTx
      modifies this`slabProdTx, this`nProdTx, this`handsTx, this`loansTx, bp`nAvail, bp.slabs, bp.buffers
      ensures Valid() && handsTx == old(handsTx) - multiset(completed) && StockOf(Tx) == old(StockOf(Tx))
    {
      hide Valid, View, Give, CanGive, StockOf;
      for i := 0 to |completed|
        invariant Valid() && StockOf(Tx) == old(StockOf(Tx))
        invariant handsTx == old(handsTx) - multiset(completed[..i])
      {
        assert completed[..i + 1] == completed[..i] + [completed[i]];
        assert completed == completed[..i + 1] + completed[i + 1..];
        OneMore(old(handsTx), completed[..i], completed[i]);
        ProdTx(completed[i]);
      }
      assert completed[..|completed|] == completed;
    }

    /** The send loop of a transmit burst. */
    method Send(n: nat) returns (sent: seq<Addr>)
      requires Valid() && n <= nConsTx
      modifies this`nConsTx, this`handsTx
      ensures Valid() && |sent| == n && handsTx == old(handsTx) + multiset(sent)
      ensures old(StockOf(Tx)) == StockOf(Tx) + Reversed(sent)
    {
      hide Valid, View, Take, CanTake, Top, StockOf;
      assert Reversed([]) == [];
      hide Reversed;
      sent := [];
      for i := 0 to n
        invariant Valid() && n - i <= nConsTx
        invariant |sent| == i && handsTx == old(handsTx) + multiset(sent)
        invariant old(StockOf(Tx)) == StockOf(Tx) + Reversed(sent)
      {
        var buffer := ConsTx();
        ReversedNext(sent, buffer);
        sent := sent + [buffer];
      }
    }

    /** One round of thread_func_nic_tx for one port, with port_tx_burst_collector_nic:
        no more packets are collected than the cache has buffers for; the completed
        buffers are given back only when there is something to send. */
    method TxBurst(completed: seq<Addr>, waiting: nat) returns (sent: seq<Addr>)
      requires Valid() && MAX_BURST <= bp.width
      requires multiset(completed) <= handsTx
      modifies this`slabConsTx, this`nConsTx, this`slabProdTx, this`nProdTx, this`handsTx, this`loansTx
      modifies bp`nAvail, bp.slabs, bp.buffers
      ensures Valid()
      ensures var there := if old(nConsTx) > 0 then old(nConsTx) else if old(bp.nAvail) > 0 then bp.width else 0;
              |sent| == Least(20, waiting, there)
      ensures handsTx == (if sent == [] then old(handsTx) else old(handsTx) - multiset(completed) + multiset(sent))
      ensures forall i, j | 0 <= i < j < |sent| :: sent[i] != sent[j]
      ensures forall x | x in sent :: IsFrame(x) && x !in old(handsTx) && x !in hands
    {
      hide Valid, View, Check, Licence, CanCheck, StockOf, IsFrame;
      var n := ConsTxCheck(MAX_BURST);
      FreeStock(Tx);
      if waiting < n {
        n := waiting;
      }
      if n == 0 {
        return [];
      }
      ghost var stock := StockOf(Tx);
      GiveBackTx(completed);
      sent := Send(n);
      TakenFrom(stock, StockOf(Tx), sent);
    }
  }
}
