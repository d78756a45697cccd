/** Slabs of frame addresses: windows of one fixed width into a flat buffer area,
    named by their first index.  Conservation is stated by counting: how often a
    given address, or slab pointer, occurs in each place. */
module SlabMemory {
  import opened Bits

  type Addr = int

  ghost function Total(parts: seq<nat>): nat {
    if parts == [] then 0 else Total(parts[..|parts| - 1]) + parts[|parts| - 1]
  }

  lemma TotalSnoc(parts: seq<nat>, x: nat)
    ensures Total(parts + [x]) == Total(parts) + x
  {
    assert (parts + [x])[..|parts|] == parts;
  }

  lemma {:induction false} TotalUpdate(parts: seq<nat>, i: nat, x: nat)
    requires i < |parts|
    ensures Total(parts[i := x]) == Total(parts) - parts[i] + x
    ensures parts[i] <= Total(parts)
  {
    var n := |parts| - 1;
    if i == n {
      assert parts[i := x][..n] == parts[..n];
    } else {
      TotalUpdate(parts[..n], i, x);
      assert parts[i := x][..n] == parts[..n][i := x];
    }
  }

  /** Two parts together are at most the total. */
  lemma TotalTwo(parts: seq<nat>, i: nat, j: nat)
    requires i < |parts| && j < |parts| && i != j
    ensures parts[i] + parts[j] <= Total(parts)
  {
    TotalUpdate(parts, i, 0);
    TotalUpdate(parts[i := 0], j, 0);
  }

  // ------------------------------------------------------------ occurrences

  /** How often x occurs in s. */
  function Count<T(==)>(s: seq<T>, x: T): nat {
    multiset(s)[x]
  }

  lemma CountSplit<T>(s: seq<T>, k: nat, x: T)
    requires k <= |s|
    ensures Count(s, x) == Count(s[..k], x) + Count(s[k..], x)
  {
    assert s == s[..k] + s[k..];
  }

  lemma CountSnoc<T>(s: seq<T>, y: T, x: T)
    ensures Count(s + [y], x) == Count(s, x) + Bit(x == y)
  {
  }

  lemma CountUpdate<T>(s: seq<T>, i: nat, y: T, x: T)
    requires i < |s|
    ensures Count(s[i := y], x) == Count(s, x) - Bit(s[i] == x) + Bit(y == x)
    ensures Bit(s[i] == x) <= Count(s, x)
  {
    assert s[i] in s;
  }

  /** Two places with the same entry give it a count of two. */
  lemma CountTwo<T>(s: seq<T>, i: nat, j: nat)
    requires i < |s| && j < |s| && i != j && s[i] == s[j]
    ensures Count(s, s[i]) >= 2
  {
    var (lo, hi) := (if i < j then i else j, if i < j then j else i);
    CountSplit(s, hi, s[i]);
    assert s[..hi][lo] == s[i] && s[hi..][0] == s[i];
    assert s[i] in s[..hi] && s[i] in s[hi..];
  }

  /** How often x occurs in the first k entries of the slab at p. */
  function In(mem: seq<Addr>, p: nat, k: nat, x: Addr): nat {
    if p + k <= |mem| then Count(mem[p..p + k], x) else 0
  }

  ghost predicate Apart(p: nat, q: nat, width: nat) {
    p + width <= q || q + width <= p
  }

  /** Slabs that lie inside the area and do not overlap. */
  ghost predicate WellPlaced(ptrs: set<nat>, width: nat, area: nat) {
    && (forall p | p in ptrs :: p + width <= area)
    && (forall p, q | p in ptrs && q in ptrs && p != q :: Apart(p, q, width))
  }

  /** A store into one slab leaves every other slab alone. */
  lemma StoreElsewhere(mem: seq<Addr>, p: nat, i: nat, y: Addr, q: nat, k: nat, width: nat, x: Addr)
    requires p + width <= |mem| && i < width && k <= width && Apart(p, q, width)
    ensures In(mem[p + i := y], q, k, x) == In(mem, q, k, x)
  {
    if q + k <= |mem| {
      assert mem[p + i := y][q..q + k] == mem[q..q + k];
    }
  }

  /** Storing behind a prefix extends it. */
  lemma StoreAtEnd(mem: seq<Addr>, p: nat, k: nat, y: Addr, x: Addr)
    requires p + k < |mem|
    ensures In(mem[p + k := y], p, k + 1, x) == In(mem, p, k, x) + Bit(x == y)
  {
    assert mem[p + k := y][p..p + k + 1] == mem[p..p + k] + [y];
  }

  /** Taking the last entry of a prefix. */
  lemma TakeFromEnd(mem: seq<Addr>, p: nat, k: nat, x: Addr)
    requires p + k < |mem|
    ensures In(mem, p, k + 1, x) == In(mem, p, k, x) + Bit(x == mem[p + k])
  {
    assert mem[p..p + k + 1] == mem[p..p + k] + [mem[p + k]];
  }

  lemma EmptyPrefix(mem: seq<Addr>, p: nat, x: Addr)
    ensures In(mem, p, 0, x) == 0
  {
    if p <= |mem| {
      assert mem[p..p] == [];
    }
  }

  lemma Cancel(a: nat, b: nat, k: nat)
    requires k >= 1 && a * k < b * k
    ensures a < b
  {
    assert a * k == b * k + (a - b) * k;
  }

  /** The set-up loops of bpool_init: slab i starts at from + i * width. */
  function Cut(n: nat, from: nat, width: nat): seq<nat> {
    seq(n, i requires 0 <= i < n => from + i * width)
  }

  lemma CutPlaced(n: nat, width: nat)
    requires width >= 1
    ensures var s := Cut(n, 0, width);
            && WellPlaced((set p | p in s), width, n * width)
            && forall i, j | 0 <= i < n && 0 <= j < n && i != j :: s[i] != s[j]
  {
    var s := Cut(n, 0, width);
    forall i, j | 0 <= i < j < n
      ensures s[i] + width <= s[j]
    {
      Steps(i, j, width);
    }
    forall i | 0 <= i < n
      ensures s[i] + width <= n * width
    {
      Steps(i, n, width);
    }
  }

  lemma Steps(i: nat, j: nat, width: nat)
    requires i < j
    ensures i * width + width <= j * width
  {
    assert j * width == i * width + (j - i) * width;
    assert (j - i) * width == width + (j - i - 1) * width;
  }

  /** Cutting an area in one go or in two pieces gives the same slabs. */
  lemma CutTwice(n: nat, m: nat, width: nat)
    ensures Cut(n + m, 0, width) == Cut(n, 0, width) + Cut(m, n * width, width)
  {
    forall i: nat | i < m
      ensures (n + i) * width == n * width + i * width
    {
    }
  }
}
