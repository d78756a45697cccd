/** What happens to the second buffer pool when its halves are mixed: any half may give
    back anything.  The slabs in use stay different exactly as long as every producer
    slab is traded below the stale entries. */
module MixedHalves {
  import opened SlabMemory
  import opened PortPool
  import S = SharedPool

  /** The cache's slabs and those the pool may hand out: its list up to the stale
      entries, or beyond them when it claims to have more. */
  function InUse(p: Port): seq<nat>
    requires 4 <= |p.slabs| && p.nAvail <= |p.slabs|
  {
    var n := |p.slabs| - 4;
    [p.rx.cons, p.rx.prod, p.tx.cons, p.tx.prod] + p.slabs[..if p.nAvail < n then n else p.nAvail]
  }

  ghost predicate Different(s: seq<nat>) {
    forall i, j | 0 <= i < j < |s| :: s[i] != s[j]
  }

  /** A producer slab is traded only below the stale entries. */
  predicate TradesBelow(p: Port, op: Op) {
    op.GiveOp? && Of(p, op.s).nProd >= p.width ==> p.nAvail < |p.slabs| - 4
  }

  /** The lowest stale entry names a slab that is in use. */
  ghost predicate Tidy(p: Port) {
    && 4 <= |p.slabs| && p.nAvail <= |p.slabs| - 4
    && Different(Own(p)) && p.slabs[|p.slabs| - 4] in Own(p)
  }

  lemma TidyInUse(p: Port)
    requires Tidy(p)
    ensures InUse(p) == Own(p) && Different(InUse(p))
  {
  }

  /** Giving anything back through any half keeps the slabs in use different exactly
      when there is room in the producer slab or an entry below the stale ones. */
  lemma GiveAliasesIff(p: Port, s: Side, x: Addr)
    requires Tidy(p) && CanGive(p, s)
    ensures Different(InUse(Give(p, s, x))) <==> Of(p, s).nProd < p.width || p.nAvail < |p.slabs| - 4
    ensures Of(p, s).nProd < p.width || p.nAvail < |p.slabs| - 4 ==> Tidy(Give(p, s, x))
  {
    var (r, n) := (Give(p, s, x), |p.slabs| - 4);
    if Of(p, s).nProd < p.width {
      assert Own(r) == Own(p);
    } else if p.nAvail < n {
      TradeSwaps(p, s, x);
    } else {
      StaleTrade(p, s, x);
    }
  }

  /** Where a half's producer slab stands among the slabs in use. */
  function ProdIndex(s: Side): nat {
    if s == Rx then 1 else 3
  }

  /** A trade below the stale entries swaps two of the slabs in use. */
  lemma TradeSwaps(p: Port, s: Side, x: Addr)
    requires Tidy(p) && CanGive(p, s) && Of(p, s).nProd >= p.width && p.nAvail < |p.slabs| - 4
    ensures Tidy(Give(p, s, x)) && InUse(Give(p, s, x)) == Own(Give(p, s, x))
  {
    var (r, i, j) := (Give(p, s, x), ProdIndex(s), 4 + p.nAvail);
    assert Own(r) == Own(p)[i := Own(p)[j]][j := Own(p)[i]];
    SwapDifferent(Own(p), i, j, p.slabs[|p.slabs| - 4]);
    assert r.slabs[|p.slabs| - 4] == p.slabs[|p.slabs| - 4];
  }

  lemma SwapDifferent(s: seq<nat>, i: nat, j: nat, q: nat)
    requires Different(s) && i < j < |s| && q in s
    ensures var r := s[i := s[j]][j := s[i]];
            Different(r) && q in r
  {
    var r := s[i := s[j]][j := s[i]];
    var k :| 0 <= k < |s| && s[k] == q;
    assert r[if k == i then j else if k == j then i else k] == q;
  }

  /** A trade of the lowest stale entry hands out a slab that is already in use. */
  lemma StaleTrade(p: Port, s: Side, x: Addr)
    requires Tidy(p) && CanGive(p, s) && Of(p, s).nProd >= p.width && p.nAvail == |p.slabs| - 4
    ensures !Different(InUse(Give(p, s, x)))
  {
    var (r, i, j) := (Give(p, s, x), ProdIndex(s), 4 + p.nAvail);
    var (stale, own, u) := (p.slabs[p.nAvail], Own(p), InUse(r));
    assert u == own[i := stale] + [own[i]];
    var k :| 0 <= k < |own| && own[k] == stale;
    if k == i {
      assert u[i] == stale == u[j];
    } else {
      assert u[k] == stale == u[i];
    }
  }

  // ---------------------------------------------------------------- all runs

  lemma StepTidy(p: Port, op: Op)
    requires Tidy(p) && Safe(p, op)
    ensures TradesBelow(p, op) ==> Tidy(Apply(p, op))
    ensures |Apply(p, op).slabs| == |p.slabs| && Apply(p, op).nAvail <= |p.slabs|
    ensures Different(InUse(Apply(p, op))) <==> TradesBelow(p, op)
  {
    match op {
      case CheckOp(s, _) => CheckTidy(p, s);
      case TakeOp(s) => assert Own(Take(p, s)) == Own(p);
      case GiveOp(s, x) => GiveAliasesIff(p, s, x);
    }
    if TradesBelow(p, op) {
      TidyInUse(Apply(p, op));
    }
  }

  lemma CheckTidy(p: Port, s: Side)
    requires Tidy(p) && CanCheck(p)
    ensures Tidy(Check(p, s))
  {
    var r := Check(p, s);
    if Of(p, s).nCons == 0 && p.nAvail > 0 {
      var (i, j) := (ProdIndex(s) - 1, 3 + p.nAvail);
      assert Own(r) == Own(p)[i := Own(p)[j]][j := Own(p)[i]];
      SwapDifferent(Own(p), i, j, p.slabs[|p.slabs| - 4]);
    }
  }

  /** A run in which a half gives back whatever it likes; an operation that would leave
      its arrays is not done. */
  function RunAny(p: Port, ops: seq<Op>): Port {
    if ops == [] then p
    else
      var (r, op) := (RunAny(p, ops[..|ops| - 1]), ops[|ops| - 1]);
      if Safe(r, op) then Apply(r, op) else r
  }

  /** Every producer trade of the run is below the stale entries. */
  predicate AllBelow(p: Port, ops: seq<Op>) {
    ops == [] ||
    var (r, op) := (RunAny(p, ops[..|ops| - 1]), ops[|ops| - 1]);
    AllBelow(p, ops[..|ops| - 1]) && (Safe(r, op) ==> TradesBelow(r, op))
  }

  lemma {:induction false} RunTidy(p: Port, ops: seq<Op>)
    requires Tidy(p) && AllBelow(p, ops)
    ensures Tidy(RunAny(p, ops)) && |RunAny(p, ops).slabs| == |p.slabs|
  {
    hide Tidy;
    if ops != [] {
      var (r, op) := (RunAny(p, ops[..|ops| - 1]), ops[|ops| - 1]);
      RunTidy(p, ops[..|ops| - 1]);
      if Safe(r, op) {
        StepTidy(r, op);
      }
      hide Safe, Apply, TradesBelow;
    }
  }

  /** A disciplined state is a tidy one. */
  lemma InvTidy(p: Port, stale: seq<nat>, ptrs: set<nat>, addrs: Addr -> nat)
    requires Inv(p, stale, ptrs, addrs) && stale[0] in ptrs
    ensures Tidy(p)
  {
    var (b, q) := (Share(p), stale[0]);
    OwnSlabs(p, stale, ptrs, addrs);
    assert S.Pointers(b, q) == 1;
    assert Different(Own(p));
    assert p.slabs[|p.slabs| - 4] == p.slabs[|p.slabs| - 4..][0] == q;
    if q !in p.slabs[..|p.slabs| - 4] {
      Elsewhere(p, q);
    }
    hide S.Sound, Share;
  }

  /** A slab that is in the share but not in its list belongs to a half. */
  lemma Elsewhere(p: Port, q: nat)
    requires |p.slabs| >= 4 && S.Pointers(Share(p), q) == 1 && q !in p.slabs[..|p.slabs| - 4]
    ensures q in [p.rx.cons, p.rx.prod, p.tx.cons, p.tx.prod]
  {
    var b := Share(p);
    assert b.reserved[..b.nRes] == [] && Count(b.slabs, q) == 0;
    var (u0, u1) := (S.Uses(b.caches[0], q), S.Uses(b.caches[1], q));
    assert S.Uses1(b.caches, q) == [] + [u0] + [u1];
    TotalSnoc([u0], u1);
    TotalSnoc([], u0);
  }

  lemma InitTidy(n: nat, width: nat, bufferSize: nat)
    requires n >= 4 && width >= 1 && bufferSize >= 1
    ensures Tidy(Init(n, width, bufferSize))
  {
    InitInv(n, width, bufferSize);
    InvTidy(Init(n, width, bufferSize), Cut(n, 0, width)[n - 4..], SlabSet(n, width), FrameCount(n, width, bufferSize));
  }

  /** At this point, and at every earlier one, the slabs in use are different. */
  ghost predicate AlwaysDifferent(p: Port, ops: seq<Op>) {
    var r := RunAny(p, ops);
    && 4 <= |r.slabs| && r.nAvail <= |r.slabs| && Different(InUse(r))
    && (ops == [] || AlwaysDifferent(p, ops[..|ops| - 1]))
  }

  /** In any run whatsoever, the slabs in use are different at every point exactly when
      every producer trade was below the stale entries. */
  lemma AlwaysDifferentIff(n: nat, width: nat, bufferSize: nat, ops: seq<Op>)
    requires n >= 4 && width >= 1 && bufferSize >= 1
    ensures AlwaysDifferent(Init(n, width, bufferSize), ops) <==> AllBelow(Init(n, width, bufferSize), ops)
  {
    InitTidy(n, width, bufferSize);
    Throughout(Init(n, width, bufferSize), ops);
  }

  lemma {:induction false} Throughout(p: Port, ops: seq<Op>)
    requires Tidy(p)
    ensures AlwaysDifferent(p, ops) <==> AllBelow(p, ops)
  {
    if ops == [] {
      TidyInUse(p);
    } else {
      var before := ops[..|ops| - 1];
      Throughout(p, before);
      if AllBelow(p, before) {
        RunTidy(p, before);
        LastStep(RunAny(p, before), ops[|ops| - 1]);
      }
      hide Tidy, Different, InUse, Safe, Apply, TradesBelow;
    }
  }

  lemma LastStep(r: Port, op: Op)
    requires Tidy(r)
    ensures var t := if Safe(r, op) then Apply(r, op) else r;
            && 4 <= |t.slabs| && t.nAvail <= |t.slabs|
            && (Different(InUse(t)) <==> (Safe(r, op) ==> TradesBelow(r, op)))
  {
    if Safe(r, op) {
      StepTidy(r, op);
    } else {
      TidyInUse(r);
    }
  }

  /** After a disciplined run, one give-back of any address through any half: the exact
      condition under which a slab is handed out twice. */
  lemma CrossGiveAliasesIff(n: nat, width: nat, bufferSize: nat, ops: seq<Op>, s: Side, x: Addr)
    requires n >= 4 && width >= 1 && bufferSize >= 1
    requires CanGive(RunOps(Init(n, width, bufferSize), ops), s)
    ensures var p := RunOps(Init(n, width, bufferSize), ops);
            && |p.slabs| == n && Give(p, s, x).nAvail <= |Give(p, s, x).slabs| == n
            && (Different(InUse(Give(p, s, x))) <==> Of(p, s).nProd < width || p.nAvail < n - 4)
  {
    var p0 := Init(n, width, bufferSize);
    var (stale, ptrs, addrs) := (p0.slabs[n - 4..], SlabSet(n, width), FrameCount(n, width, bufferSize));
    InitInv(n, width, bufferSize);
    RunKeeps(p0, stale, ptrs, addrs, ops);
    RunLength(p0, ops);
    hide RunOps;
    InvTidy(RunOps(p0, ops), stale, ptrs, addrs);
    GiveAliasesIff(RunOps(p0, ops), s, x);
  }
}
