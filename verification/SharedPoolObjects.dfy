/** The shared pool as objects updated in place: arrays of slab pointers and of
    frame addresses, and any number of cache objects that trade slabs with their
    pool.  Every method is proved to do what the operation of SharedPool does.  The
    pool's ghost `caches` lists what each cache holds; a cache knows its entry. */
module SharedPoolObjects {
  import opened Bits
  import opened SlabMemory
  import opened SharedPool

  class BPool {
    const width: nat
    const slabs: array<nat>
    const reserved: array<nat>
    const buffers: array<Addr>
    var nAvail: nat
    var nRes: nat

    ghost const ptrs: set<nat>
    ghost const addrs: Addr -> nat
    ghost var caches: seq<Cache>
    ghost var hands: multiset<Addr>
    ghost var retired: multiset<Addr>

    ghost function View(): Pool
      reads this, slabs, reserved, buffers
    {
      Pool(width, buffers[..], slabs[..], nAvail, reserved[..], nRes, caches, hands, retired)
    }

    ghost predicate Valid()
      reads this, slabs, reserved, buffers
    {
      && slabs != reserved
      && Inv(View(), ptrs, addrs)
    }

    /** bpool_init. */
    constructor (nSlabs: nat, nReserved: nat, width: nat, bufferSize: nat)
      requires width >= 1 && bufferSize >= 1 && nReserved % 2 == 0
      ensures Valid() && fresh(slabs) && fresh(reserved) && fresh(buffers)
      ensures exists junk: seq<Addr> :: |junk| == nReserved * width &&
                View() == Fresh(nSlabs, nReserved, width, bufferSize, junk)
      ensures ptrs == FreshSlabs(nSlabs, nReserved, width)
    {
      this.width := width;
      slabs := new nat[nSlabs](i => i * width);
      reserved := new nat[nReserved](i => nSlabs * width + i * width);
      buffers := new Addr[nSlabs * width + nReserved * width];
      nAvail, nRes := nSlabs, nReserved;
      ptrs := FreshSlabs(nSlabs, nReserved, width);
      addrs := x => Bit(IsFrame(nSlabs, width, bufferSize, x));
      caches, hands, retired := [], multiset{}, multiset{};
      new;
      var n := nSlabs * width;
      for i := 0 to n
        modifies buffers
        invariant forall k | 0 <= k < i :: buffers[k] == k * bufferSize
      {
        buffers[i] := i * bufferSize;
      }
      ghost var junk := buffers[n..];
      assert buffers[..] == seq(n, i requires 0 <= i < n => i * bufferSize) + junk;
      assert slabs[..] == Cut(nSlabs, 0, width) && reserved[..] == Cut(nReserved, n, width);
      assert View() == Fresh(nSlabs, nReserved, width, bufferSize, junk);
      FreshInv(nSlabs, nReserved, width, bufferSize, junk);
    }

    // The three sections under the pool's lock.

    /** Trades an empty slab for the full slab on top. */
    method TakeFull(empty: nat) returns (full: nat)
      requires 0 < nAvail <= slabs.Length
      modifies this`nAvail, slabs
      ensures nAvail == old(nAvail) - 1 && full == old(slabs[nAvail - 1])
      ensures slabs[..] == old(slabs[..])[nAvail := empty]
    {
      var nAvailable := nAvail - 1;
      full := slabs[nAvailable];
      slabs[nAvailable] := empty;
      nAvail := nAvailable;
    }

    /** Trades a full slab for the empty slab above the full ones. */
    method PutFull(full: nat) returns (empty: nat)
      requires nAvail < slabs.Length
      modifies this`nAvail, slabs
      ensures nAvail == old(nAvail) + 1 && empty == old(slabs[nAvail])
      ensures slabs[..] == old(slabs[..])[old(nAvail) := full]
    {
      var nAvailable := nAvail;
      empty := slabs[nAvailable];
      slabs[nAvailable] := full;
      nAvail := nAvailable + 1;
    }

    /** Puts the two slabs of a closed cache back into the reserve. */
    method PutReserved(prod: nat, cons: nat)
      requires nRes + 2 <= reserved.Length
      modifies this`nRes, reserved
      ensures nRes == old(nRes) + 2
      ensures reserved[..] == old(reserved[..])[old(nRes) := prod][old(nRes) + 1 := cons]
    {
      reserved[nRes] := prod;
      reserved[nRes + 1] := cons;
      nRes := nRes + 2;
    }
  }

  class BCache {
    const bp: BPool
    var slabCons: nat
    var slabProd: nat
    var nCons: nat
    var nProd: nat
    ghost const id: nat

    /** The cache is open and its pool's view of it is right. */
    ghost predicate Registered()
      reads this, bp
    {
      id < |bp.caches| && bp.caches[id] == Cache(slabCons, slabProd, nCons, nProd)
    }

    constructor Raw(bp: BPool, cons: nat, prod: nat)
      ensures this.bp == bp && id == |bp.caches|
      ensures slabCons == cons && slabProd == prod && nCons == 0 && nProd == 0
    {
      this.bp := bp;
      slabCons, slabProd, nCons, nProd := cons, prod, 0, 0;
      id := |bp.caches|;
    }

    /** bcache_init: two reserved slabs, or null when none is left. */
    static method Init(bp: BPool) returns (bc: BCache?)
      requires bp.Valid()
      modifies bp`nRes, bp`caches
      ensures bp.Valid() && bp.View() == Open(old(bp.View()))
      ensures bc == null <==> old(bp.nRes) == 0
      ensures bc != null ==> fresh(bc) && bc.bp == bp && bc.id == |old(bp.caches)| && bc.Registered()
      ensures bc != null ==> bc.nCons == bc.nProd == 0 && bp.nRes == old(bp.nRes) - 2
      ensures bc != null ==> [bc.slabProd, bc.slabCons] == bp.reserved[bp.nRes..bp.nRes + 2]
    {
      OpenKeeps(bp.View(), bp.ptrs, bp.addrs);
      hide Inv;
      if bp.nRes == 0 {
        return null;
      }
      bc := new BCache.Raw(bp, bp.reserved[bp.nRes - 1], bp.reserved[bp.nRes - 2]);
      bp.nRes := bp.nRes - 2;
      bp.caches := bp.caches + [Cache(bc.slabCons, bc.slabProd, 0, 0)];
    }

    /** bcache_cons_check. */
    method ConsCheck(n: nat) returns (k: nat)
      requires bp.Valid() && Registered()
      modifies this, bp`nAvail, bp`caches, bp.slabs
      ensures bp.Valid() && Registered() && CanCheck(old(bp.View()), id)
      ensures bp.View() == Check(old(bp.View()), id) && k == Licence(old(bp.View()), id, n)
      ensures nCons == if old(nCons) > 0 then old(nCons) else if old(bp.nAvail) > 0 then bp.width else 0
      ensures n <= bp.width ==> k == if n < nCons then n else nCons
      ensures n > bp.width ==>
                k == if old(nCons) == 0 && old(bp.nAvail) > 0 then n else if n < nCons then n else nCons
    {
      ghost var v := bp.View();
      CheckKeeps(v, bp.ptrs, bp.addrs, id);
      hide Inv;
      if nCons != 0 {
        return if nCons < n then nCons else n;
      }
      if bp.nAvail == 0 {
        return 0;
      }
      slabCons := bp.TakeFull(slabCons);
      nCons := bp.width;
      k := n;
      bp.caches := bp.caches[id := Cache(slabCons, slabProd, nCons, nProd)];
      assert bp.View() == Check(v, id);
    }

    /** bcache_cons. */
    method Cons() returns (buffer: Addr)
      requires bp.Valid() && Registered() && nCons > 0
      modifies this`nCons, bp`hands, bp`caches
      ensures bp.Valid() && Registered() && CanTake(old(bp.View()), id)
      ensures bp.View() == Take(old(bp.View()), id) && buffer == Top(old(bp.View()), id)
      ensures nCons == old(nCons) - 1 && slabCons + nCons < bp.buffers.Length && buffer == bp.buffers[slabCons + nCons]
    {
      TakeKeeps(bp.View(), bp.ptrs, bp.addrs, id);
      hide Inv;
      buffer := bp.buffers[slabCons + nCons - 1];
      nCons := nCons - 1;
      bp.hands := bp.hands + multiset{buffer};
      bp.caches := bp.caches[id := Cache(slabCons, slabProd, nCons, nProd)];
    }

    /** bcache_prod. */
    method Prod(buffer: Addr)
      requires bp.Valid() && Registered() && buffer in bp.hands
      modifies this, bp`nAvail, bp`hands, bp`caches, bp.slabs, bp.buffers
      ensures bp.Valid() && Registered() && CanGive(old(bp.View()), id)
      ensures bp.View() == Give(old(bp.View()), id, buffer)
    {
      ghost var v := bp.View();
      GiveKeeps(v, bp.ptrs, bp.addrs, id, buffer);
      hide Inv;
      bp.hands := bp.hands - multiset{buffer};
      if nProd < bp.width {
        bp.buffers[slabProd + nProd] := buffer;
        nProd := nProd + 1;
        bp.caches := bp.caches[id := Cache(slabCons, slabProd, nCons, nProd)];
        assert bp.View() == Give(v, id, buffer);
        return;
      }
      var empty := bp.PutFull(slabProd);
      bp.buffers[empty] := buffer;
      slabProd := empty;
      nProd := 1;
      bp.caches := bp.caches[id := Cache(slabCons, slabProd, nCons, nProd)];
      assert bp.View() == Give(v, id, buffer);
    }

    /** bcache_free. */
    method Free()
      requires bp.Valid() && Registered()
      modifies bp`nRes, bp`retired, bp`caches, bp.reserved
      ensures bp.Valid() && CanClose(old(bp.View()), id)
      ensures bp.View() == Close(old(bp.View()), id)
      ensures bp.nRes == old(bp.nRes) + 2 <= bp.reserved.Length
      ensures bp.reserved[..] == old(bp.reserved[..])[old(bp.nRes) := slabProd][old(bp.nRes) + 1 := slabCons]
    {
      ghost var v := bp.View();
      CloseKeeps(v, bp.ptrs, bp.addrs, id);
      hide Inv, Contents, CanClose;
      bp.PutReserved(slabProd, slabCons);
      bp.retired := bp.retired + Contents(v.mem, v.caches[id]);
      bp.caches := bp.caches[id := Closed];
      assert bp.View().reserved == Close(v, id).reserved;
      assert bp.View() == Close(v, id);
    }
  }
}
