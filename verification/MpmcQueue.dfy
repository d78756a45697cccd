/** The queue as code: the compare-and-swap loops of push and pull, run by one
    thread without an overlapping operation.  Beside the shared fields the object
    carries the state of the step system, and every method is shown to be a run
    of that system, so its results are those of the model. */
module MpmcQueue {
  import opened Bits
  import opened MpmcModel
  import opened MpmcTheorems

  class Queue {
    var mask: nat
    const buffer: array<Cell>
    var tail: nat
    var head: nat
    ghost var sys: State

    ghost predicate Valid()
      reads this, buffer
    {
      && AtRest(sys)
      && Shared(sys)
    }

    /** The fields hold what the step system says they hold. */
    ghost predicate Shared(s: State)
      reads this, buffer
    {
      && IsPow2(buffer.Length) && mask == buffer.Length - 1
      && buffer[..] == s.cells && tail == s.tail && head == s.head
    }

    ghost function Items(): seq<Ptr>
      reads this, buffer
      requires Valid()
    {
      Contents(sys)
    }

    constructor (size: nat)
      requires size >= 2 && IsPow2(size)
      ensures Valid() && fresh(buffer) && buffer.Length == size && Items() == [] && sys.events == []
    {
      mask := size - 1;
      buffer := new Cell[size](_ => Cell(0, 0));
      tail, head := 0, 0;
      new;
      var i := 0;
      while i != size
        modifies buffer
        invariant i <= size
        invariant forall k | 0 <= k < i :: buffer[k].sequence == k
        decreases size - i
      {
        buffer[i] := buffer[i].(sequence := i);
        i := i + 1;
      }
      ghost var cells := buffer[..];
      ghost var junk := seq(size, k requires 0 <= k < size => cells[k].data);
      sys := Init(junk);
      assert sys == Run(Init(junk), []);
      assert sys.cells == cells;
    }

    /** mpmc_queue_init: -1 for a size that is not a power of two from 2 on, -2
        when no memory is available. */
    static method Make(size: nat, memory: bool) returns (ret: int, q: Queue?)
      ensures ret == (if size < 2 || !IsPow2(size) then -1 else if !memory then -2 else 0)
      ensures ret == 0 <==> q != null
      ensures q != null ==> fresh(q) && fresh(q.buffer) && q.Valid() && q.buffer.Length == size && q.Items() == []
    {
      q := null;
      if size < 2 {
        return -1, null;
      }
      PowerOfTwoTest(size);
      if And(size, size - 1) != 0 {
        return -1, null;
      }
      if !memory {
        return -2, null;
      }
      q := new Queue(size);
      ret := 0;
    }

    /** mpmc_queue_available, with nobody else at work. */
    method Available() returns (n: nat)
      requires Valid()
      ensures n == |Items()|
    {
      RestCells(sys);
      n := tail - head;
    }

    /** mpmc_queue_push by thread t; the weak compare-and-swap fails spuriously
        `spurious` times.  Fails exactly when the queue is full. */
    method Push(t: Tid, ptr: Ptr, spurious: nat) returns (ok: bool, ghost sched: Schedule)
      requires Valid()
      modifies this`tail, this`sys, buffer
      ensures Valid()
      ensures ok <==> |old(Items())| < buffer.Length
      ensures Items() == if ok then old(Items()) + [ptr] else old(Items())
      ensures sys == Run(old(sys), sched) && By(sched, t)
      ensures sys.events == old(sys.events) + [if ok then Pushed(t, old(tail), ptr) else PushFailed(t, old(tail))]
    {
      hide Step, Run, AtRest;
      RestCells(sys);
      MaskBySize(tail, buffer.Length);
      var pos := tail;
      var left := spurious;
      ok := true;
      while true
        invariant pos == tail == sys.tail && buffer[..] == sys.cells && ok
        invariant sys == old(sys)
        decreases left
      {
        var index := And(pos, mask);
        var diff := buffer[index].sequence - pos;
        if diff == 0 {
          if left == 0 && tail == pos {
            tail := pos + 1;
            break;
          }
          pos, left := tail, left - 1;
        } else if diff < 0 {
          ok := false;
          break;
        } else {
          assert false;
        }
      }
      if ok {
        var index := And(pos, mask);
        buffer[index] := buffer[index].(data := ptr);
        buffer[index] := buffer[index].(sequence := pos + 1);
        assert buffer[..] == sys.cells[index := Cell(pos + 1, ptr)];
      }
      sched := Solo(t, StartPush(ptr), spurious, ok);
      SoloBy(t, StartPush(ptr), spurious, ok);
      SoloPush(sys, t, ptr, spurious);
      sys := Run(sys, sched);
    }

    /** mpmc_queue_pull.  Fails exactly when the queue is empty. */
    method Pull(t: Tid, spurious: nat) returns (ok: bool, ptr: Ptr, ghost sched: Schedule)
      requires Valid()
      modifies this`head, this`sys, buffer
      ensures Valid()
      ensures ok <==> old(Items()) != []
      ensures old(Items()) == if ok then [ptr] + Items() else Items()
      ensures sys == Run(old(sys), sched) && By(sched, t)
      ensures sys.events == old(sys.events) + [if ok then Pulled(t, old(head), ptr) else PullFailed(t, old(head))]
    {
      hide Step, Run, AtRest;
      RestCells(sys);
      MaskBySize(head, buffer.Length);
      var pos := head;
      var left := spurious;
      ok, ptr := true, 0;
      while true
        invariant pos == head == sys.head && buffer[..] == sys.cells && ok
        invariant sys == old(sys)
        decreases left
      {
        var index := And(pos, mask);
        var diff := buffer[index].sequence - (pos + 1);
        if diff == 0 {
          if left == 0 && head == pos {
            head := pos + 1;
            break;
          }
          pos, left := head, left - 1;
        } else if diff < 0 {
          ok := false;
          break;
        } else {
          assert false;
        }
      }
      if ok {
        var index := And(pos, mask);
        ptr := buffer[index].data;
        buffer[index] := buffer[index].(sequence := pos + mask + 1);
        assert buffer[..] == sys.cells[index := Cell(pos + |sys.cells|, ptr)];
      }
      sched := Solo(t, StartPull, spurious, ok);
      SoloBy(t, StartPull, spurious, ok);
      SoloPull(sys, t, spurious);
      sys := Run(sys, sched);
    }

    /** mpmc_queue_push_many: stops at the first failure, so it stores the longest
        prefix that fits. */
    method PushMany(t: Tid, ptrs: seq<Ptr>, spurious: nat) returns (i: nat)
      requires Valid()
      modifies this`tail, this`sys, buffer
      ensures Valid() && i <= |ptrs|
      ensures Items() == old(Items()) + ptrs[..i]
      ensures i < |ptrs| ==> |Items()| == buffer.Length
    {
      hide Step, Run, AtRest;
      i := 0;
      while i < |ptrs|
        invariant Valid() && i <= |ptrs|
        invariant Items() == old(Items()) + ptrs[..i]
      {
        var ok, _ := Push(t, ptrs[i], spurious);
        if !ok {
          RestCells(sys);
          break;
        }
        assert ptrs[..i + 1] == ptrs[..i] + [ptrs[i]];
        i := i + 1;
      }
    }

    /** mpmc_queue_pull_many: takes the oldest items until `cnt` or empty. */
    method PullMany(t: Tid, cnt: nat, spurious: nat) returns (got: seq<Ptr>)
      requires Valid()
      modifies this`head, this`sys, buffer
      ensures Valid() && |got| <= cnt
      ensures old(Items()) == got + Items()
      ensures |got| < cnt ==> Items() == []
    {
      hide Step, Run, AtRest;
      got := [];
      while |got| < cnt
        invariant Valid() && |got| <= cnt
        invariant old(Items()) == got + Items()
      {
        var ok, ptr, _ := Pull(t, spurious);
        if !ok {
          break;
        }
        assert got + ([ptr] + Items()) == (got + [ptr]) + Items();
        got := got + [ptr];
      }
    }
  }
}
