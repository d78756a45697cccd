/** The pool of transit buffer addresses, and the start-up loop that turns all of
    them into the tokens of a transit queue. */
module TransitPool {
  import opened Bits
  import opened MpmcModel
  import opened MpmcTheorems
  import opened MpmcQueue

  const MAX_BURST_TX_OBJS: nat := 4096
  const N_TRANSIT_BUFFERS: nat := 4096

  /** The first n buffer addresses, upwards ... */
  function Up(n: nat, frameSize: nat): (r: seq<Ptr>)
    ensures |r| == n
  {
    seq(n, i => i * frameSize)
  }

  /** ... and n of all, downwards from the highest. */
  function Down(n: nat, frameSize: nat): (r: seq<Ptr>)
    requires n <= N_TRANSIT_BUFFERS
    ensures |r| == n
  {
    seq(n, i => (N_TRANSIT_BUFFERS - 1 - i) * frameSize)
  }

  lemma NextToken(left: seq<Ptr>, rest: seq<Ptr>, addr: Ptr, items: seq<Ptr>, j: nat, frameSize: nat)
    requires j < N_TRANSIT_BUFFERS && left == Up(N_TRANSIT_BUFFERS - j, frameSize) == rest + [addr]
    requires items == Down(j, frameSize)
    ensures rest == Up(N_TRANSIT_BUFFERS - (j + 1), frameSize) && items + [addr] == Down(j + 1, frameSize)
  {
    assert left[..|rest|] == rest && left[|rest|] == addr;
  }

  lemma AllDown(frameSize: nat)
    ensures var r := Down(N_TRANSIT_BUFFERS, frameSize);
            |r| == 4096 && forall i | 0 <= i < 4096 :: r[i] == (4095 - i) * frameSize
  {
  }

  class Pool {
    const buffers: array<Ptr>
    var nBuffers: nat

    ghost predicate Valid()
      reads this
    {
      nBuffers <= buffers.Length
    }

    ghost function Left(): seq<Ptr>
      reads this, buffers
      requires Valid()
    {
      buffers[..nBuffers]
    }

    /** transit_bpool_init: buffer i starts at i frames. */
    constructor (frameSize: nat)
      ensures Valid() && fresh(buffers)
      ensures Left() == Up(N_TRANSIT_BUFFERS, frameSize)
      ensures |Left()| == 4096 && forall i | 0 <= i < 4096 :: Left()[i] == i * frameSize
    {
      buffers := new Ptr[N_TRANSIT_BUFFERS];
      nBuffers := N_TRANSIT_BUFFERS;
      new;
      for i := 0 to N_TRANSIT_BUFFERS
        invariant nBuffers == N_TRANSIT_BUFFERS
        invariant forall k | 0 <= k < i :: buffers[k] == k * frameSize
      {
        buffers[i] := i * frameSize;
      }
    }

    /** get_transit_buffer_addr: the last address left. */
    method Get() returns (buffer: Ptr)
      requires Valid() && Left() != []
      modifies this
      ensures Valid() && old(Left()) == Left() + [buffer]
    {
      var n := nBuffers - 1;
      buffer := buffers[n];
      nBuffers := n;
    }
  }

  /** The start-up loop of one transit queue: every push succeeds, and the queue
      is left full, with the highest address in front. */
  method FillTransitQueue(t: Tid, frameSize: nat, spurious: nat) returns (q: Queue)
    ensures fresh(q) && fresh(q.buffer) && q.Valid() && q.buffer.Length == MAX_BURST_TX_OBJS
    ensures q.Items() == Down(N_TRANSIT_BUFFERS, frameSize)
    ensures |q.Items()| == 4096 && forall i | 0 <= i < 4096 :: q.Items()[i] == (4095 - i) * frameSize
    ensures forall e | e in q.sys.events :: e.Pushed?
  {
    hide Step, Run, AtRest;
    assert Pow2(12) == MAX_BURST_TX_OBJS;
    q := new Queue(MAX_BURST_TX_OBJS);
    var pool := new Pool(frameSize);
    var j := 0;
    while j < MAX_BURST_TX_OBJS
      invariant 0 <= j <= MAX_BURST_TX_OBJS
      invariant q.Valid() && pool.Valid() && fresh(pool) && fresh(pool.buffers)
      invariant pool.Left() == Up(N_TRANSIT_BUFFERS - j, frameSize)
      invariant q.Items() == Down(j, frameSize)
      invariant forall e | e in q.sys.events :: e.Pushed?
    {
      ghost var (left, items) := (pool.Left(), q.Items());
      var addr := pool.Get();
      NextToken(left, pool.Left(), addr, items, j, frameSize);
      var ret, _ := q.Push(t, addr, spurious);
      hide Down, Up;
      j := j + 1;
    }
    AllDown(frameSize);
  }
}
