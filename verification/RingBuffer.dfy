/** The ring as an object updated in place: the unrolled copies of the enqueue and
    dequeue macros, and the calls as one thread at a time sees them. */
module RingBuffer {
  import opened Bits
  import opened SpscModel

  const ENOENT: int := 2
  const ENOBUFS: int := 105
  const EDQUOT: int := 122

  const RING_SIZE_MASK: nat := 0x0fffffff

  /** ringbuf_get_memsize refuses the count. */
  predicate Refused(count: nat) {
    And(U32(count - 1), count) != 0 || count > RING_SIZE_MASK
  }

  /** Accepted are zero and the powers of two up to 2^27. */
  lemma AcceptedSizes(count: nat)
    requires count < TWO_32
    ensures !Refused(count) <==> count == 0 || exists k: nat :: k <= 27 && count == Pow2(k)
  {
    if count > 0 {
      SmallMod(count - 1, TWO_32);
      AndCommutes(count - 1, count);
      PowerOfTwoTest(count);
      hide And, Pow2;
      if !Refused(count) {
        var k: nat :| count == Pow2(k);
        Below2To28(k);
      }
      if k: nat :| k <= 27 && count == Pow2(k) {
        Below2To28(k);
        assert IsPow2(count);
      }
    }
  }

  lemma Below2To28(k: nat)
    ensures Pow2(k) <= RING_SIZE_MASK <==> k <= 27
  {
    assert Pow2(9) == 512;
    assert Pow2(18) == 262144;
    assert Pow2(27) == 134217728 && Pow2(28) == 268435456;
    if k <= 27 {
      Monotone(k, 27);
    } else {
      Monotone(28, k);
    }
  }

  lemma {:induction false} AndCommutes(x: nat, y: nat)
    ensures And(x, y) == And(y, x)
  {
    if x != 0 && y != 0 {
      AndCommutes(x / 2, y / 2);
    }
  }

  // ---------------------------------------------------------------- the copies

  function At(size: nat, head: nat, j: nat): nat
    requires size >= 1
  {
    (head + j) % size
  }

  /** The simple loop: ring[(head + j) mod size] = objs[j] for each j in turn. */
  function Copied(ring: seq<Ptr>, head: nat, objs: seq<Ptr>): (r: seq<Ptr>)
    requires |ring| >= 1
    ensures |r| == |ring|
  {
    if objs == [] then ring
    else
      var j := |objs| - 1;
      Copied(ring, head, objs[..j])[At(|ring|, head, j) := objs[j]]
  }

  /** And its counterpart: the entries from head on. */
  function Fetched(ring: seq<Ptr>, head: nat, n: nat): (r: seq<Ptr>)
    requires |ring| >= 1
    ensures |r| == n
  {
    seq(n, j requires 0 <= j < n => ring[At(|ring|, head, j)])
  }

  /** It puts each object in its slot ... */
  lemma {:induction false} CopiedAt(ring: seq<Ptr>, head: nat, objs: seq<Ptr>, j: nat)
    requires |ring| >= 1 && j < |objs| <= |ring|
    ensures Copied(ring, head, objs)[At(|ring|, head, j)] == objs[j]
  {
    var n := |objs| - 1;
    if j < n {
      CopiedAt(ring, head, objs[..n], j);
      SlotClash(|ring|, head + j, head + n);
    }
  }

  /** ... and touches nothing else. */
  lemma {:induction false} CopiedElsewhere(ring: seq<Ptr>, head: nat, objs: seq<Ptr>, k: nat)
    requires k < |ring| && forall j: nat | j < |objs| :: At(|ring|, head, j) != k
    ensures Copied(ring, head, objs)[k] == ring[k]
  {
    if objs != [] {
      CopiedElsewhere(ring, head, objs[..|objs| - 1], k);
    }
  }

  /** Copying and then fetching gives the objects back. */
  lemma FetchedCopied(ring: seq<Ptr>, head: nat, objs: seq<Ptr>)
    requires |ring| >= 1 && |objs| <= |ring|
    ensures Fetched(Copied(ring, head, objs), head, |objs|) == objs
  {
    forall j: nat | j < |objs|
      ensures Copied(ring, head, objs)[At(|ring|, head, j)] == objs[j]
    {
      CopiedAt(ring, head, objs, j);
    }
  }

  lemma CopiedNext(ring: seq<Ptr>, head: nat, objs: seq<Ptr>, i: nat)
    requires |ring| >= 1 && i < |objs|
    ensures Copied(ring, head, objs[..i + 1]) == Copied(ring, head, objs[..i])[At(|ring|, head, i) := objs[i]]
  {
    assert objs[..i + 1][..i] == objs[..i];
  }

  lemma CopiedNone(ring: seq<Ptr>, head: nat, objs: seq<Ptr>)
    requires |ring| >= 1
    ensures Copied(ring, head, objs[..0]) == ring
  {
  }

  /** One round of the unrolled loop. */
  lemma {:induction false} CopiedFour(ring: seq<Ptr>, head: nat, objs: seq<Ptr>, i: nat, start: nat)
    requires |ring| >= 1 && i + 4 <= |objs| && start == At(|ring|, head, 0) && start + i + 4 <= |ring|
    ensures Copied(ring, head, objs[..i + 4]) ==
            Copied(ring, head, objs[..i])[start + i := objs[i]][start + i + 1 := objs[i + 1]]
              [start + i + 2 := objs[i + 2]][start + i + 3 := objs[i + 3]]
  {
    var size := |ring|;
    IndexInTurn(size, head, start, i);
    IndexInTurn(size, head, start, i + 1);
    IndexInTurn(size, head, start, i + 2);
    IndexInTurn(size, head, start, i + 3);
    hide Copied, At;
    CopiedNext(ring, head, objs, i);
    CopiedNext(ring, head, objs, i + 1);
    CopiedNext(ring, head, objs, i + 2);
    CopiedNext(ring, head, objs, i + 3);
  }

  /** Before and after the end of the table. */
  lemma IndexInTurn(size: nat, head: nat, idx: nat, j: nat)
    requires size >= 1 && idx == At(size, head, 0) && j <= size
    ensures idx + j < size ==> At(size, head, j) == idx + j
    ensures idx + j >= size ==> At(size, head, j) == idx + j - size
  {
    assert head == size * (head / size) + idx;
    if idx + j < size {
      DivModUnique(head + j, size, head / size, idx + j);
    } else {
      assert size * (head / size + 1) == size * (head / size) + size;
      DivModUnique(head + j, size, head / size + 1, idx + j - size);
    }
  }

  const NOT_THREE: nat := TWO_32 - 4

  /** n & ~3 and n & 3. */
  lemma MaskThree(n: nat)
    requires n < TWO_32
    ensures And(n, NOT_THREE) == n - n % 4 && And(n, 3) == n % 4
  {
    assert Pow2(2) == 4;
    MaskIsMod(n, 2);
    if n >= 4 {
      var m := NOT_THREE / 4;
      assert And(n, NOT_THREE) == 2 * And(n / 2, NOT_THREE / 2) == 4 * And(n / 2 / 2, NOT_THREE / 2 / 2);
      assert Pow2(10) == 1024;
      assert Pow2(20) == 1024 * 1024;
      assert Pow2(30) == 1024 * 1024 * 1024 == m + 1;
      assert n / 2 / 2 == n / 4;
      MaskIsMod(n / 4, 30);
      SmallMod(n / 4, Pow2(30));
    } else {
      assert And(n, NOT_THREE) == 2 * And(n / 2, NOT_THREE / 2) + 0 || n == 0;
      assert n / 2 != 0 ==> And(n / 2, NOT_THREE / 2) == 2 * And(n / 2 / 2, NOT_THREE / 2 / 2) + 0;
    }
  }

  /** ring[idx++] = obj_table[i++]. */
  method CopyOne(ring: array<Ptr>, ghost was: seq<Ptr>, ghost head: nat, ghost start: nat, idx: nat,
                 objs: array<Ptr>, ghost n: nat, i: nat)
    returns (i': nat, idx': nat)
    requires 1 <= ring.Length == |was| && start == At(ring.Length, head, 0) && i < n <= ring.Length
    requires idx < ring.Length && (idx == start + i || idx == start + i - ring.Length)
    requires n <= objs.Length && ring != objs
    requires ring[..] == Copied(was, head, objs[..n][..i])
    modifies ring
    ensures i' == i + 1 && idx' == idx + 1
    ensures ring[..] == Copied(was, head, objs[..n][..i + 1])
  {
    IndexInTurn(ring.Length, head, start, i);
    CopiedNext(was, head, objs[..n], i);
    hide Copied, At;
    ring[idx] := objs[i];
    i', idx' := i + 1, idx + 1;
  }

  /** The tail of the unrolled copy: a switch whose cases fall through. */
  method CopyTail(ring: array<Ptr>, ghost was: seq<Ptr>, ghost head: nat, ghost start: nat, idx0: nat,
                  objs: array<Ptr>, ghost n: nat, i0: nat, rest: nat)
    requires 1 <= ring.Length == |was| && start == At(ring.Length, head, 0) && start + n < ring.Length
    requires rest <= 3 && i0 + rest == n && idx0 == start + i0
    requires n <= objs.Length && ring != objs
    requires ring[..] == Copied(was, head, objs[..n][..i0])
    modifies ring
    ensures ring[..] == Copied(was, head, objs[..n])
  {
    hide Copied;
    var i, idx := i0, idx0;
    if rest == 3 {
      i, idx := CopyOne(ring, was, head, start, idx, objs, n, i);
    }
    if rest >= 2 {
      i, idx := CopyOne(ring, was, head, start, idx, objs, n, i);
    }
    if rest >= 1 {
      i, idx := CopyOne(ring, was, head, start, idx, objs, n, i);
    }
    assert objs[..n][..n] == objs[..n];
  }

  lemma Rounds(n: nat) returns (rounds: nat)
    requires n < TWO_32
    ensures And(n, NOT_THREE) == 4 * rounds && And(n, 3) == n - 4 * rounds <= 3
  {
    MaskThree(n);
    rounds := n / 4;
  }

  /** One round of the unrolled loop. */
  method CopyFour(ring: array<Ptr>, ghost was: seq<Ptr>, ghost head: nat, ghost start: nat, idx: nat,
                  objs: array<Ptr>, ghost n: nat, i: nat)
    requires 1 <= ring.Length == |was| && start == At(ring.Length, head, 0) && start + n < ring.Length
    requires i + 4 <= n && idx == start + i
    requires n <= objs.Length && ring != objs
    requires ring[..] == Copied(was, head, objs[..n][..i])
    modifies ring
    ensures ring[..] == Copied(was, head, objs[..n][..i + 4])
  {
    ghost var (old0, xs) := (ring[..], objs[..n]);
    CopiedFour(was, head, xs, i, start);
    hide Copied;
    ring[idx] := objs[i];
    ring[idx + 1] := objs[i + 1];
    ring[idx + 2] := objs[i + 2];
    ring[idx + 3] := objs[i + 3];
    assert ring[..] == old0[idx := xs[i]][idx + 1 := xs[i + 1]][idx + 2 := xs[i + 2]][idx + 3 := xs[i + 3]];
  }

  /** The branch that does not reach the end of the table: a copy unrolled by four. */
  method CopyStraight(ring: array<Ptr>, head: nat, idx0: nat, objs: array<Ptr>, n: nat)
    requires 1 <= ring.Length && idx0 == At(ring.Length, head, 0) && idx0 + n < ring.Length
    requires n <= objs.Length && n < TWO_32 && ring != objs
    modifies ring
    ensures ring[..] == Copied(old(ring[..]), head, objs[..n])
  {
    hide *;
    ghost var (was, xs, m) := (ring[..], objs[..n], 0);
    ghost var rounds := Rounds(n);
    CopiedNone(was, head, xs);
    var i, idx, whole, rest := 0, idx0, And(n, NOT_THREE), And(n, 3);
    while i < whole
      invariant i == 4 * m && m <= rounds && idx == idx0 + i
      invariant ring[..] == Copied(was, head, xs[..i])
    {
      CopyFour(ring, was, head, idx0, idx, objs, n, i);
      i, idx, m := i + 4, idx + 4, m + 1;
    }
    CopyTail(ring, was, head, idx0, idx, objs, n, i, rest);
  }

  /** The branch that runs to the end of the table and goes on at its beginning. */
  method CopyAround(ring: array<Ptr>, head: nat, idx0: nat, objs: array<Ptr>, n: nat)
    requires 1 <= ring.Length && idx0 == At(ring.Length, head, 0) && idx0 + n >= ring.Length && n <= ring.Length
    requires n <= objs.Length && ring != objs
    modifies ring
    ensures ring[..] == Copied(old(ring[..]), head, objs[..n])
  {
    var size := ring.Length;
    hide *;
    ghost var (was, xs) := (ring[..], objs[..n]);
    CopiedNone(was, head, xs);
    var i, idx := 0, idx0;
    while idx < size
      invariant idx == idx0 + i <= size && i <= n
      invariant ring[..] == Copied(was, head, xs[..i])
      decreases size - idx
    {
      i, idx := CopyOne(ring, was, head, idx0, idx, objs, n, i);
    }
    idx := 0;
    while i < n
      invariant i <= n && idx == idx0 + i - size
      invariant ring[..] == Copied(was, head, xs[..i])
      decreases n - i
    {
      i, idx := CopyOne(ring, was, head, idx0, idx, objs, n, i);
    }
    assert xs[..n] == xs;
  }

  /** ENQUEUE_PTRS. */
  method EnqueuePtrs(ring: array<Ptr>, mask: nat, head: nat, objs: array<Ptr>, n: nat)
    requires GoodSize(ring.Length) && mask == ring.Length - 1 && head < TWO_32
    requires n <= mask && n <= objs.Length && ring != objs
    modifies ring
    ensures ring[..] == Copied(old(ring[..]), head, objs[..n])
  {
    var idx := And(head, mask);
    HeadSlot(ring.Length, head);
    SizeBound(ring.Length);
    hide Copied, GoodSize, At;
    if idx + n < ring.Length {
      CopyStraight(ring, head, idx, objs, n);
    } else {
      CopyAround(ring, head, idx, objs, n);
    }
  }

  lemma HeadSlot(size: nat, head: nat)
    requires GoodSize(size) && head < TWO_32
    ensures And(head, size - 1) == At(size, head, 0) < size
  {
    WrapThenMask(head, size);
    SlotIs(size - 1, head);
    SmallMod(head, TWO_32);
  }

  /** The table with its first entries replaced. */
  function Onto(table: seq<Ptr>, first: seq<Ptr>): seq<Ptr>
    requires |first| <= |table|
  {
    first + table[|first|..]
  }

  lemma OntoNone(table: seq<Ptr>, ring: seq<Ptr>, head: nat)
    requires |ring| >= 1
    ensures table == Onto(table, Fetched(ring, head, 0))
  {
  }

  lemma OntoNext(table: seq<Ptr>, ring: seq<Ptr>, head: nat, i: nat)
    requires |ring| >= 1 && i < |table|
    ensures Onto(table, Fetched(ring, head, i + 1)) ==
            Onto(table, Fetched(ring, head, i))[i := ring[At(|ring|, head, i)]]
  {
  }

  /** obj_table[i++] = ring[idx++]. */
  method FetchOne(ring: array<Ptr>, ghost head: nat, ghost start: nat, idx: nat,
                  objs: array<Ptr>, ghost was: seq<Ptr>, i: nat)
    returns (i': nat, idx': nat)
    requires 1 <= ring.Length && start == At(ring.Length, head, 0) && i < ring.Length
    requires idx < ring.Length && (idx == start + i || idx == start + i - ring.Length)
    requires i < objs.Length == |was| && ring != objs
    requires objs[..] == Onto(was, Fetched(ring[..], head, i))
    modifies objs
    ensures i' == i + 1 && idx' == idx + 1
    ensures objs[..] == Onto(was, Fetched(ring[..], head, i + 1))
  {
    IndexInTurn(ring.Length, head, start, i);
    OntoNext(was, ring[..], head, i);
    hide Fetched, At, Onto;
    objs[i] := ring[idx];
    i', idx' := i + 1, idx + 1;
  }

  method FetchTail(ring: array<Ptr>, ghost head: nat, ghost start: nat, idx0: nat,
                   objs: array<Ptr>, ghost was: seq<Ptr>, i0: nat, rest: nat)
    requires 1 <= ring.Length && start == At(ring.Length, head, 0) && start + i0 + rest < ring.Length
    requires rest <= 3 && idx0 == start + i0
    requires i0 + rest <= objs.Length == |was| && ring != objs
    requires objs[..] == Onto(was, Fetched(ring[..], head, i0))
    modifies objs
    ensures objs[..] == Onto(was, Fetched(ring[..], head, i0 + rest))
  {
    hide *;
    var i, idx := i0, idx0;
    if rest == 3 {
      i, idx := FetchOne(ring, head, start, idx, objs, was, i);
    }
    if rest >= 2 {
      i, idx := FetchOne(ring, head, start, idx, objs, was, i);
    }
    if rest >= 1 {
      i, idx := FetchOne(ring, head, start, idx, objs, was, i);
    }
  }

  method FetchFour(ring: array<Ptr>, ghost head: nat, ghost start: nat, idx: nat,
                   objs: array<Ptr>, ghost was: seq<Ptr>, i: nat)
    requires 1 <= ring.Length && start == At(ring.Length, head, 0) && start + i + 4 <= ring.Length
    requires idx == start + i
    requires i + 4 <= objs.Length == |was| && ring != objs
    requires objs[..] == Onto(was, Fetched(ring[..], head, i))
    modifies objs
    ensures objs[..] == Onto(was, Fetched(ring[..], head, i + 4))
  {
    ghost var (t0, r) := (objs[..], ring[..]);
    forall k | i <= k < i + 4
      ensures At(ring.Length, head, k) == start + k
      ensures Onto(was, Fetched(r, head, k + 1)) == Onto(was, Fetched(r, head, k))[k := r[At(|r|, head, k)]]
    {
      IndexInTurn(ring.Length, head, start, k);
      OntoNext(was, r, head, k);
    }
    hide *;
    objs[i] := ring[idx];
    objs[i + 1] := ring[idx + 1];
    objs[i + 2] := ring[idx + 2];
    objs[i + 3] := ring[idx + 3];
    assert objs[..] == t0[i := r[idx]][i + 1 := r[idx + 1]][i + 2 := r[idx + 2]][i + 3 := r[idx + 3]];
    assert Onto(was, Fetched(r, head, i + 1)) == t0[i := r[idx]];
    assert Onto(was, Fetched(r, head, i + 2)) == t0[i := r[idx]][i + 1 := r[idx + 1]];
    assert Onto(was, Fetched(r, head, i + 3)) == t0[i := r[idx]][i + 1 := r[idx + 1]][i + 2 := r[idx + 2]];
  }

  method FetchStraight(ring: array<Ptr>, head: nat, idx0: nat, objs: array<Ptr>, n: nat)
    requires 1 <= ring.Length && idx0 == At(ring.Length, head, 0) && idx0 + n < ring.Length
    requires n <= objs.Length && n < TWO_32 && ring != objs
    modifies objs
    ensures objs[..] == Onto(old(objs[..]), Fetched(ring[..], head, n))
  {
    hide *;
    ghost var (was, m) := (objs[..], 0);
    ghost var rounds := Rounds(n);
    OntoNone(was, ring[..], head);
    var i, idx, whole, rest := 0, idx0, And(n, NOT_THREE), And(n, 3);
    while i < whole
      invariant i == 4 * m && m <= rounds && idx == idx0 + i
      invariant objs[..] == Onto(was, Fetched(ring[..], head, i))
    {
      FetchFour(ring, head, idx0, idx, objs, was, i);
      i, idx, m := i + 4, idx + 4, m + 1;
    }
    FetchTail(ring, head, idx0, idx, objs, was, i, rest);
  }

  method FetchAround(ring: array<Ptr>, head: nat, idx0: nat, objs: array<Ptr>, n: nat)
    requires 1 <= ring.Length && idx0 == At(ring.Length, head, 0) && idx0 + n >= ring.Length && n <= ring.Length
    requires n <= objs.Length && ring != objs
    modifies objs
    ensures objs[..] == Onto(old(objs[..]), Fetched(ring[..], head, n))
  {
    var size := ring.Length;
    hide *;
    ghost var was := objs[..];
    OntoNone(was, ring[..], head);
    var i, idx := 0, idx0;
    while idx < size
      invariant idx == idx0 + i <= size && i <= n
      invariant objs[..] == Onto(was, Fetched(ring[..], head, i))
      decreases size - idx
    {
      i, idx := FetchOne(ring, head, idx0, idx, objs, was, i);
    }
    idx := 0;
    while i < n
      invariant i <= n && idx == idx0 + i - size
      invariant objs[..] == Onto(was, Fetched(ring[..], head, i))
      decreases n - i
    {
      i, idx := FetchOne(ring, head, idx0, idx, objs, was, i);
    }
  }

  /** DEQUEUE_PTRS. */
  method DequeuePtrs(ring: array<Ptr>, mask: nat, head: nat, objs: array<Ptr>, n: nat)
    requires GoodSize(ring.Length) && mask == ring.Length - 1 && head < TWO_32
    requires n <= mask && n <= objs.Length && ring != objs
    modifies objs
    ensures objs[..] == Onto(old(objs[..]), Fetched(ring[..], head, n))
  {
    var idx := And(head, mask);
    HeadSlot(ring.Length, head);
    SizeBound(ring.Length);
    hide Fetched, Onto, GoodSize, At;
    if idx + n < ring.Length {
      FetchStraight(ring, head, idx, objs, n);
    } else {
      FetchAround(ring, head, idx, objs, n);
    }
  }

  // ------------------------------------------------------------------ the ring

  lemma AtWrapped(size: nat, x: nat, j: nat)
    requires GoodSize(size)
    ensures At(size, U32(x), j) == At(size, x, j)
  {
    SlotAfter(size, x, U32(x), j);
    WrapThenMask(U32(x) + j, size);
  }

  lemma RoomLeft(size: nat, cons: nat, held: nat)
    requires GoodSize(size) && cons < TWO_32 && held < size
    ensures FreeEntries(size - 1, U32(cons + held), cons) == size - 1 - held
    ensures U32(U32(cons + held) - cons) == held
  {
    SizeBound(size);
    SmallMod(cons, TWO_32);
    WrapDifference(size - 1, cons, cons + held);
    WrapDifference(0, cons + held, cons);
  }

  /** Copying behind the objects held appends. */
  lemma Appended(ring: seq<Ptr>, cons: nat, q: seq<Ptr>, head: nat, objs: seq<Ptr>)
    requires GoodSize(|ring|) && head == U32(cons + |q|) && |q| + |objs| <= |ring|
    requires Fetched(ring, cons, |q|) == q
    ensures Fetched(Copied(ring, head, objs), cons, |q| + |objs|) == q + objs
  {
    var (size, r) := (|ring|, Copied(ring, head, objs));
    forall j: nat | j < |q|
      ensures r[At(size, cons, j)] == q[j]
    {
      forall i: nat | i < |objs|
        ensures At(size, head, i) != At(size, cons, j)
      {
        AtWrapped(size, cons + |q|, i);
        SlotClash(size, cons + j, cons + |q| + i);
      }
      CopiedElsewhere(ring, head, objs, At(size, cons, j));
      assert Fetched(ring, cons, |q|)[j] == q[j];
    }
    forall i: nat | i < |objs|
      ensures r[At(size, cons, |q| + i)] == objs[i]
    {
      AtWrapped(size, cons + |q|, i);
      CopiedAt(ring, head, objs, i);
    }
  }

  /** Moving the index on drops the oldest. */
  lemma Dropped(ring: seq<Ptr>, cons: nat, q: seq<Ptr>, n: nat)
    requires GoodSize(|ring|) && n <= |q| && Fetched(ring, cons, |q|) == q
    ensures Fetched(ring, cons, n) == q[..n]
    ensures Fetched(ring, U32(cons + n), |q| - n) == q[n..]
  {
    forall j: nat | j < |q| - n
      ensures Fetched(ring, U32(cons + n), |q| - n)[j] == q[n..][j]
    {
      AtWrapped(|ring|, cons + n, j);
      assert Fetched(ring, cons, |q|)[n + j] == q[n + j];
    }
    forall j: nat | j < n
      ensures ring[At(|ring|, cons, j)] == q[j]
    {
      assert Fetched(ring, cons, |q|)[j] == q[j];
    }
  }

  /** The ring holds these objects, oldest first. */
  ghost predicate Holds(ring: seq<Ptr>, prodHead: nat, consHead: nat, queue: seq<Ptr>) {
    && GoodSize(|ring|) && consHead < TWO_32 && |queue| < |ring|
    && prodHead == U32(consHead + |queue|) && Fetched(ring, consHead, |queue|) == queue
  }

  lemma HoldsRoom(ring: seq<Ptr>, prodHead: nat, consHead: nat, queue: seq<Ptr>)
    requires Holds(ring, prodHead, consHead, queue)
    ensures FreeEntries(|ring| - 1, prodHead, consHead) == |ring| - 1 - |queue|
    ensures U32(prodHead - consHead) == |queue|
    ensures GoodSize(|ring|) && |ring| < TWO_32 && prodHead < TWO_32 && consHead < TWO_32
  {
    RoomLeft(|ring|, consHead, |queue|);
    SizeBound(|ring|);
  }

  /** An accepted enqueue appends, within the quota. */
  lemma {:induction false} HoldsMore(ring: seq<Ptr>, prodHead: nat, consHead: nat, queue: seq<Ptr>, objs: seq<Ptr>)
    requires Holds(ring, prodHead, consHead, queue) && |queue| + |objs| < |ring|
    ensures Holds(Copied(ring, prodHead, objs), U32(prodHead + |objs|), consHead, queue + objs)
    ensures !OverQuota(|ring| - 1, |ring| - 1 - |queue|, |objs|, |ring|)
  {
    Appended(ring, consHead, queue, prodHead, objs);
    WrapSum(consHead + |queue|, |objs|);
    WithinQuota(|ring|, |ring| - 1 - |queue|, |objs|);
    hide U32, Fetched, Copied, OverQuota, GoodSize;
  }

  /** An accepted dequeue takes the oldest. */
  lemma HoldsLess(ring: seq<Ptr>, prodHead: nat, consHead: nat, queue: seq<Ptr>, n: nat)
    requires Holds(ring, prodHead, consHead, queue) && n <= |queue|
    ensures Fetched(ring, consHead, n) == queue[..n]
    ensures Holds(ring, prodHead, U32(consHead + n), queue[n..])
  {
    Dropped(ring, consHead, queue, n);
    WrapSum(consHead + n, |queue| - n);
    hide Fetched, GoodSize;
  }

  class Ring {
    const size: nat
    const mask: nat
    const watermark: nat
    const ring: array<Ptr>
    var prodHead: nat
    var prodTail: nat
    var consHead: nat
    var consTail: nat

    /** The objects held, oldest first. */
    ghost var queue: seq<Ptr>

    ghost predicate Valid()
      reads this, ring
    {
      && ring.Length == size >= 1 && mask == size - 1 && watermark == size
      && prodHead == prodTail && consHead == consTail
      && Holds(ring[..], prodHead, consHead, queue)
    }

    /** ringbuf_init: it takes any count; only a ring size makes a ring. */
    constructor (count: nat)
      requires count < TWO_32
      ensures size == watermark == count && mask == U32(count - 1) && ring.Length == count && fresh(ring)
      ensures prodHead == prodTail == consHead == consTail == 0 && queue == []
      ensures GoodSize(count) ==> Valid()
    {
      size, mask, watermark := count, U32(count - 1), count;
      ring := new Ptr[count];
      prodHead, prodTail, consHead, consTail := 0, 0, 0, 0;
      queue := [];
      new;
      if count >= 1 {
        SmallMod(count - 1, TWO_32);
      }
    }

    method Full() returns (r: bool)
      requires Valid()
      ensures r <==> |queue| == size - 1
    {
      r := IsFull(mask, prodTail, consTail);
      ghost var ct := consTail;
      SmallMod(ct, TWO_32);
      FullArithmetic(size, ct + |queue|, ct);
    }

    method Empty() returns (r: bool)
      requires Valid()
      ensures r <==> queue == []
    {
      r := consTail == prodTail;
      SizeBound(size);
      WrapDifference(0, consTail + |queue|, consTail);
      SmallMod(consTail, TWO_32);
    }

    /** ringbuffer_sp_do_enqueue. */
    method Enqueue(objs: array<Ptr>, n: nat) returns (status: int)
      requires Valid() && n <= objs.Length && n < TWO_32 && objs != ring
      modifies this`prodHead, this`prodTail, this`queue, ring
      ensures Valid()
      ensures status == if n <= size - 1 - |old(queue)| then 0 else -105
      ensures queue == if status == 0 then old(queue) + objs[..n] else old(queue)
      ensures status != 0 ==> ring[..] == old(ring[..]) && prodHead == old(prodHead)
    {
      HoldsRoom(ring[..], prodHead, consHead, queue);
      hide Holds, FreeEntries, OverQuota, U32, Copied, GoodSize;
      var free := FreeEntries(mask, prodHead, consTail);
      if n > free {
        return -ENOBUFS;
      }
      HoldsMore(ring[..], prodHead, consHead, queue, objs[..n]);
      var head := prodHead;
      var next := U32(head + n);
      prodHead := next;
      queue := queue + objs[..n];
      EnqueuePtrs(ring, mask, head, objs, n);
      prodTail := next;
      status := if OverQuota(mask, free, n, watermark) then -EDQUOT else 0;
    }

    /** ringbuffer_sc_do_dequeue. */
    method Dequeue(objs: array<Ptr>, n: nat) returns (status: int)
      requires Valid() && n <= objs.Length && n < TWO_32 && objs != ring
      modifies this`consHead, this`consTail, this`queue, objs
      ensures Valid()
      ensures status == if n <= |old(queue)| then 0 else -2
      ensures status == 0 ==> objs[..n] == old(queue)[..n] && objs[n..] == old(objs[n..]) && queue == old(queue)[n..]
      ensures status != 0 ==> objs[..] == old(objs[..]) && queue == old(queue)
    {
      HoldsRoom(ring[..], prodHead, consHead, queue);
      var entries := U32(prodTail - consHead);
      hide Holds, U32, Fetched, GoodSize, At;
      if n > entries {
        return -ENOENT;
      }
      HoldsLess(ring[..], prodHead, consHead, queue, n);
      var head := consHead;
      var next := U32(head + n);
      consHead := next;
      DequeuePtrs(ring, mask, head, objs, n);
      consTail := next;
      queue := queue[n..];
      status := 0;
    }
  }
}
