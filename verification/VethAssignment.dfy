/** The wiring of rings to threads: the veths are handed to the transmitting NIC threads
    in blocks, and each veth's receiving thread gets the veth's own rings. */
module VethAssignment {
  import opened Bits

  /** veth_count_per_nic_q. */
  function PerQueue(v: nat, n: nat): nat
    requires n >= 1
  {
    (v + (n - 1)) / n
  }

  /** The first veth of block i. */
  function Start(v: nat, n: nat, i: nat): nat
    requires n >= 1
  {
    var s := i * PerQueue(v, n);
    if s < v then s else v
  }

  lemma PerQueueBounds(v: nat, n: nat)
    requires n >= 1
    ensures v <= n * PerQueue(v, n) && PerQueue(v, n) <= v
  {
    var per := PerQueue(v, n);
    assert v + n - 1 == n * per + (v + n - 1) % n;
    AtMost(v, n, per);
  }

  lemma AtMost(v: nat, n: nat, per: nat)
    requires n >= 1 && n * per <= v + n - 1
    ensures per <= v
  {
    assert n * per == n * (v + 1) + n * (per - v - 1);
    assert n * (v + 1) == n * v + n;
    assert n * v >= v;
  }

  lemma NextStart(v: nat, n: nat, i: nat)
    requires n >= 1
    ensures var per := PerQueue(v, n);
            Start(v, n, i + 1) == Start(v, n, i) + (if v - Start(v, n, i) > per then per else v - Start(v, n, i))
  {
    assert (i + 1) * PerQueue(v, n) == i * PerQueue(v, n) + PerQueue(v, n);
  }

  /** Every veth is in a block of one of the threads ... */
  lemma BlockOf(v: nat, n: nat, x: nat) returns (i: nat)
    requires n >= 1 && x < v
    ensures i < n && Start(v, n, i) <= x < Start(v, n, i + 1)
  {
    var per := PerQueue(v, n);
    PerQueueBounds(v, n);
    assert per >= 1;
    i := x / per;
    InBlock(v, n, x, i);
    Below(i, n, per, x);
  }

  /** ... and in no other. */
  lemma OneBlock(v: nat, n: nat, x: nat, i: nat, j: nat)
    requires n >= 1 && x < v
    requires Start(v, n, i) <= x < Start(v, n, i + 1) && Start(v, n, j) <= x < Start(v, n, j + 1)
    ensures i == j
  {
    PerQueueBounds(v, n);
    assert PerQueue(v, n) >= 1;
    BlockIs(v, n, x, i);
    BlockIs(v, n, x, j);
  }

  lemma Below(i: nat, n: nat, per: nat, x: nat)
    requires i * per <= x < n * per
    ensures i < n
  {
    assert i * per == n * per + (i - n) * per;
  }

  lemma InBlock(v: nat, n: nat, x: nat, i: nat)
    requires n >= 1 && x < v && PerQueue(v, n) >= 1 && i == x / PerQueue(v, n)
    ensures Start(v, n, i) <= x < Start(v, n, i + 1) && i * PerQueue(v, n) <= x
  {
    var per := PerQueue(v, n);
    assert x == per * i + x % per;
    assert (i + 1) * per == i * per + per;
  }

  lemma BlockIs(v: nat, n: nat, x: nat, k: nat)
    requires n >= 1 && x < v && PerQueue(v, n) >= 1 && Start(v, n, k) <= x < Start(v, n, k + 1)
    ensures k == x / PerQueue(v, n)
  {
    var per := PerQueue(v, n);
    assert (k + 1) * per == k * per + per;
    DivModUnique(x, per, k, x - k * per);
  }

  function Range(from: nat, to: nat): seq<nat>
    requires from <= to
  {
    seq(to - from, k requires 0 <= k < to - from => from + k)
  }

  /** The rings in the table of thread i. */
  function Block(v: nat, n: nat, i: nat): (r: seq<nat>)
    requires n >= 1
    ensures |r| <= PerQueue(v, n)
  {
    NextStart(v, n, i);
    Range(Start(v, n, i), Start(v, n, i + 1))
  }

  lemma BlockIsRange(v: nat, n: nat, i: nat)
    requires n >= 1
    ensures Start(v, n, i) <= Start(v, n, i + 1) && Block(v, n, i) == Range(Start(v, n, i), Start(v, n, i + 1))
  {
    NextStart(v, n, i);
  }

  /** The inner loop of main. */
  method FillTable(first: nat, remaining: nat) returns (table: seq<nat>, next: nat)
    ensures next == first + remaining && table == Range(first, next)
  {
    table, next := [], first;
    for w := 0 to remaining
      invariant next == first + w && table == Range(first, next)
    {
      table := table + [next];
      next := next + 1;
    }
  }

  /** The loops of main: transmitting thread i is given the rings of its block, and
      receiving thread h the rings of veth h. */
  method Wire(v: nat, n: nat, nicTx: array<seq<nat>>, vethRx: array<nat>)
    requires n >= 1 && nicTx.Length == n && vethRx.Length == v
    modifies nicTx, vethRx
    ensures forall i | 0 <= i < n :: nicTx[i] == Block(v, n, i)
    ensures forall h | 0 <= h < v :: vethRx[h] == h
  {
    var perQueue := (v + (n - 1)) / n;
    PerQueueBounds(v, n);
    var vethIndex, remaining, placed := 0, perQueue, 0;
    StartZero(v, n);
    hide Start, PerQueue, Block, Range;
    for i := 0 to n
      invariant vethIndex == placed == Start(v, n, i) <= v
      invariant remaining == if v - placed > perQueue then perQueue else v - placed
      invariant forall k | 0 <= k < i :: nicTx[k] == Block(v, n, k)
    {
      NextStart(v, n, i);
      nicTx[i], vethIndex := FillTable(vethIndex, remaining);
      BlockIsRange(v, n, i);
      placed := placed + remaining;
      remaining := v - placed;
      if remaining > perQueue {
        remaining := perQueue;
      }
    }
    for h := 0 to v
      invariant forall k | 0 <= k < n :: nicTx[k] == Block(v, n, k)
      invariant forall g | 0 <= g < h :: vethRx[g] == g
    {
      vethRx[h] := h;
    }
  }

  lemma StartZero(v: nat, n: nat)
    requires n >= 1
    ensures Start(v, n, 0) == 0
  {
  }

  /** Each veth's rings are in exactly one place of exactly one transmitting thread's
      table: every ring has one consumer (and, as the wiring shows, one producer). */
  lemma OneConsumer(v: nat, n: nat, x: nat) returns (i: nat, w: nat)
    requires n >= 1 && x < v
    ensures i < n && w < |Block(v, n, i)| && Block(v, n, i)[w] == x
    ensures var per := (v + n - 1) / n; per >= 1 && i == x / per && w == x % per
    ensures forall j: nat, u: nat :: u < |Block(v, n, j)| && Block(v, n, j)[u] == x ==> j == i && u == w
  {
    hide *;
    i := BlockOf(v, n, x);
    w := x - Start(v, n, i);
    BlockAt(v, n, i, w);
    PlaceIn(v, n, x, i);
    forall j: nat, u: nat | u < |Block(v, n, j)| && Block(v, n, j)[u] == x
      ensures j == i && u == w
    {
      SamePlace(v, n, x, i, j, u);
    }
  }

  /** A veth's place is the quotient and the remainder by the size of a full block. */
  lemma PlaceIn(v: nat, n: nat, x: nat, i: nat)
    requires n >= 1 && x < v && Start(v, n, i) <= x < Start(v, n, i + 1)
    ensures var per := (v + n - 1) / n; per >= 1 && i == x / per && x - Start(v, n, i) == x % per
  {
    var per := PerQueue(v, n);
    PerQueueBounds(v, n);
    assert per >= 1;
    BlockIs(v, n, x, i);
    assert (i + 1) * per == i * per + per && x == per * (x / per) + x % per;
  }

  /** The veths are spread evenly: no table has more than the quotient, rounded up. */
  lemma EvenBlocks(v: nat, n: nat, i: nat)
    requires n >= 1
    ensures n * |Block(v, n, i)| < v + n
  {
    var (per, m) := (PerQueue(v, n), |Block(v, n, i)|);
    assert v + n - 1 == n * per + (v + n - 1) % n;
    hide *;
    assert m <= per by {
      SmallBlock(v, n, i);
    }
    assert n * per == n * m + n * (per - m);
  }

  lemma SmallBlock(v: nat, n: nat, i: nat)
    requires n >= 1
    ensures |Block(v, n, i)| <= PerQueue(v, n)
  {
  }

  lemma SamePlace(v: nat, n: nat, x: nat, i: nat, j: nat, u: nat)
    requires n >= 1 && x < v && Start(v, n, i) <= x < Start(v, n, i + 1)
    requires u < |Block(v, n, j)| && Block(v, n, j)[u] == x
    ensures j == i && u == x - Start(v, n, i)
  {
    hide *;
    BlockHolds(v, n, j, u);
    assert Start(v, n, j) <= x < Start(v, n, j + 1);
    OneBlock(v, n, x, i, j);
  }

  lemma BlockAt(v: nat, n: nat, i: nat, w: nat)
    requires n >= 1 && Start(v, n, i) + w < Start(v, n, i + 1)
    ensures w < |Block(v, n, i)| && Block(v, n, i)[w] == Start(v, n, i) + w
  {
    BlockIsRange(v, n, i);
    hide Start, Block;
  }

  lemma BlockHolds(v: nat, n: nat, i: nat, w: nat)
    requires n >= 1 && w < |Block(v, n, i)|
    ensures Block(v, n, i)[w] == Start(v, n, i) + w < Start(v, n, i + 1)
  {
    BlockIsRange(v, n, i);
    hide Start, Block;
  }

  /** And no table holds anything else. */
  lemma OnlyVeths(v: nat, n: nat, i: nat, w: nat)
    requires n >= 1 && w < |Block(v, n, i)|
    ensures Block(v, n, i)[w] < v
  {
    NextStart(v, n, i);
  }
}
