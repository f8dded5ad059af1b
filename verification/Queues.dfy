/** The queue globals: three process queues and the sleep queue, sharing no node, and the heap their
    nodes come from (src/process.cpp, src/system_entry.cpp). */
module Queues {
  import opened Seqs
  import opened LinkedLists
  import opened NodeMemory
  import opened SchedulerNodes
  import H = HeapModel
  import S = Scheduler

  /** The queues as sequences, and where their nodes are. */
  datatype View = View(ready: seq<nat>, running: seq<nat>, blocking: seq<nat>, sleeping: seq<S.Clock>, mem: Mem)

  class QueueSet {
    const readyList: LinkedList<nat>
    const runningList: LinkedList<nat>
    const blockingList: LinkedList<nat>
    const sleepList: LinkedList<S.Clock>
    var heap: H.State

    ghost var view: View
    ghost var Repr: set<object>

    ghost predicate Valid()
      reads this, Repr
      ensures Valid() ==> this in Repr
    {
      && {this, readyList, runningList, blockingList, sleepList} <= Repr
      && readyList.Repr <= Repr && runningList.Repr <= Repr && blockingList.Repr <= Repr && sleepList.Repr <= Repr
      && this !in readyList.Repr + runningList.Repr + blockingList.Repr + sleepList.Repr
      && readyList.Repr !! runningList.Repr && readyList.Repr !! blockingList.Repr
      && readyList.Repr !! sleepList.Repr && runningList.Repr !! blockingList.Repr
      && runningList.Repr !! sleepList.Repr && blockingList.Repr !! sleepList.Repr
      && readyList.Valid() && runningList.Valid() && blockingList.Valid() && sleepList.Valid()
      && readyList.nodeSize == NodeSize(ReadyQ) && runningList.nodeSize == NodeSize(RunningQ)
      && blockingList.nodeSize == NodeSize(BlockingQ) && sleepList.nodeSize == NodeSize(SleepQ)
      && view == View(readyList.Contents, runningList.Contents, blockingList.Contents, sleepList.Contents,
                      Mem(readyList.Addresses, runningList.Addresses, blockingList.Addresses, sleepList.Addresses, heap))
    }

    static method NewPair<A(==, 0), B(==, 0)>(sizeA: H.Size, sizeB: H.Size) returns (a: LinkedList<A>, b: LinkedList<B>)
      ensures a.Valid() && b.Valid() && a.Contents == [] && b.Contents == []
      ensures a.nodeSize == sizeA && b.nodeSize == sizeB
      ensures fresh(a.Repr) && fresh(b.Repr) && a.Repr !! b.Repr
    {
      a := new LinkedList<A>(sizeA);
      b := new LinkedList<B>(sizeB);
    }

    constructor (heap: H.State)
      ensures Valid() && fresh(Repr)
      ensures view == View([], [], [], [], Mem([], [], [], [], heap))
    {
      var a, b := NewPair<nat, nat>(NodeSize(ReadyQ), NodeSize(RunningQ));
      var c, d := NewPair<nat, S.Clock>(NodeSize(BlockingQ), NodeSize(SleepQ));
      readyList, runningList, blockingList, sleepList := a, b, c, d;
      this.heap, view := heap, View([], [], [], [], Mem([], [], [], [], heap));
      Repr := {this} + a.Repr + b.Repr + c.Repr + d.Repr;
    }

    method PushReady(p: nat)
      requires Valid() && !heap.halted
      modifies Repr
      ensures Valid() && fresh(Repr - old(Repr))
      ensures view == old(view).(ready := if heap.halted then old(view.ready) else old(view.ready) + [p],
                                 mem := Do(old(view.mem), Insert(ReadyQ)))
      ensures readyList.Freed == old(readyList.Freed)
      ensures sleepList.Spine == old(sleepList.Spine)
    {
      var after, node := readyList.PushBack(p, heap);
      InsertIs(view.mem, ReadyQ, after, node);
      heap := after;
      view := view.(ready := readyList.Contents, mem := Do(view.mem, Insert(ReadyQ)));
      Repr := Repr + readyList.Repr;
    }

    method PushRunning(p: nat)
      requires Valid() && !heap.halted
      modifies Repr
      ensures Valid() && fresh(Repr - old(Repr))
      ensures view == old(view).(running := if heap.halted then old(view.running) else old(view.running) + [p],
                                 mem := Do(old(view.mem), Insert(RunningQ)))
      ensures runningList.Freed == old(runningList.Freed)
    {
      var after, node := runningList.PushBack(p, heap);
      InsertIs(view.mem, RunningQ, after, node);
      heap := after;
      view := view.(running := runningList.Contents, mem := Do(view.mem, Insert(RunningQ)));
      Repr := Repr + runningList.Repr;
    }

    method PushBlocking(p: nat)
      requires Valid() && !heap.halted
      modifies Repr
      ensures Valid() && fresh(Repr - old(Repr))
      ensures view == old(view).(blocking := if heap.halted then old(view.blocking) else old(view.blocking) + [p],
                                 mem := Do(old(view.mem), Insert(BlockingQ)))
      ensures blockingList.Freed == old(blockingList.Freed)
    {
      var after, node := blockingList.PushBack(p, heap);
      InsertIs(view.mem, BlockingQ, after, node);
      heap := after;
      view := view.(blocking := blockingList.Contents, mem := Do(view.mem, Insert(BlockingQ)));
      Repr := Repr + blockingList.Repr;
    }

    method PushSleeping(clock: S.Clock)
      requires Valid() && !heap.halted
      modifies Repr
      ensures Valid() && fresh(Repr - old(Repr))
      ensures view == old(view).(sleeping := if heap.halted then old(view.sleeping) else old(view.sleeping) + [clock],
                                 mem := Do(old(view.mem), Insert(SleepQ)))
      ensures sleepList.Freed == old(sleepList.Freed)
    {
      var after, node := sleepList.PushBack(clock, heap);
      InsertIs(view.mem, SleepQ, after, node);
      heap := after;
      view := view.(sleeping := sleepList.Contents, mem := Do(view.mem, Insert(SleepQ)));
      Repr := Repr + sleepList.Repr;
    }

    /** A malloc of the kernel's own. */
    method Allocate(size: H.Size)
      requires Valid() && !heap.halted
      modifies this
      ensures Valid() && Repr == old(Repr)
      ensures view == old(view).(mem := Do(old(view.mem), Block(size)))
    {
      heap := H.Malloc(heap, size).0;
      view := view.(mem := Do(view.mem, Block(size)));
    }

    method DropRunning(p: nat) returns (found: bool)
      requires Valid() && !heap.halted
      modifies Repr
      ensures Valid() && Repr == old(Repr) && found == (p in old(view.running))
      ensures view == if found
                      then old(view).(running := Without(old(view.running), p),
                                      mem := Do(old(view.mem), Delete(RunningQ, Position(old(view.running), p))))
                      else old(view)
      ensures runningList.Freed == old(runningList.Freed) + Gone(old(runningList.Spine), runningList.Spine)
    {
      var after;
      found, after := runningList.Remove(p, heap);
      heap := after;
      if found {
        view := view.(running := runningList.Contents,
                      mem := Do(view.mem, Delete(RunningQ, Position(view.running, p))));
      }
    }

    /** Move a process that stops running to the queue of its new status. */
    method MoveStopped(p: nat, status: S.Status) returns (found: bool)
      requires Valid() && !heap.halted && status != S.Running
      modifies Repr
      ensures Valid() && fresh(Repr - old(Repr)) && found == (p in old(view.running))
      ensures view.mem == DoAll(old(view.mem), MoveOps(RunningQ, old(view.running), p, QueueOf(status)))
      ensures !heap.halted ==>
                view == if !found then old(view)
                        else old(view).(
                          running := Without(old(view.running), p),
                          ready := if status.Ready? then old(view.ready) + [p] else old(view.ready),
                          blocking := if status.Blocking? then old(view.blocking) + [p] else old(view.blocking),
                          mem := view.mem)
    {
      ghost var before := view.mem;
      found := DropRunning(p);
      if found {
        DoTwo(before, Delete(RunningQ, Position(old(view.running), p)), Insert(QueueOf(status)));
        if !heap.halted {
          if status.Ready? {
            PushReady(p);
          } else {
            PushBlocking(p);
          }
        }
      }
    }

    method DropBlocking(p: nat) returns (found: bool)
      requires Valid() && !heap.halted
      modifies Repr
      ensures Valid() && Repr == old(Repr) && found == (p in old(view.blocking))
      ensures view == if found
                      then old(view).(blocking := Without(old(view.blocking), p),
                                      mem := Do(old(view.mem), Delete(BlockingQ, Position(old(view.blocking), p))))
                      else old(view)
      ensures blockingList.Freed == old(blockingList.Freed) + Gone(old(blockingList.Spine), blockingList.Spine)
      ensures sleepList.Spine == old(sleepList.Spine)
    {
      var after;
      found, after := blockingList.Remove(p, heap);
      heap := after;
      if found {
        view := view.(blocking := blockingList.Contents,
                      mem := Do(view.mem, Delete(BlockingQ, Position(view.blocking, p))));
      }
    }

    /** blocking_queue.remove(p); ready_queue.push_back(p) */
    method MoveWoken(p: nat) returns (found: bool)
      requires Valid() && !heap.halted
      modifies Repr
      ensures Valid() && fresh(Repr - old(Repr)) && found == (p in old(view.blocking))
      ensures view.mem == DoAll(old(view.mem), MoveOps(BlockingQ, old(view.blocking), p, ReadyQ))
      ensures !heap.halted ==>
                view == if !found then old(view)
                        else old(view).(blocking := Without(old(view.blocking), p),
                                        ready := old(view.ready) + [p], mem := view.mem)
      ensures sleepList.Spine == old(sleepList.Spine)
    {
      ghost var before := view.mem;
      found := DropBlocking(p);
      if found {
        DoTwo(before, Delete(BlockingQ, Position(old(view.blocking), p)), Insert(ReadyQ));
        if !heap.halted {
          PushReady(p);
        }
      }
    }

    method PopReady() returns (front: Option<nat>)
      requires Valid() && !heap.halted
      modifies Repr
      ensures Valid() && Repr == old(Repr)
      ensures front == if old(view.ready) == [] then None else Some(old(view.ready)[0])
      ensures view == if front.None? then old(view)
                      else old(view).(ready := old(view.ready)[1..], mem := Do(old(view.mem), Delete(ReadyQ, 0)))
      ensures readyList.Freed == old(readyList.Freed) + Gone(old(readyList.Spine), readyList.Spine)
    {
      var after;
      assert view.ready != [] ==> Splice(view.mem.ready, 0) == view.mem.ready[1..];
      front, after := readyList.PopFront(heap);
      heap := after;
      if front.Some? {
        view := view.(ready := readyList.Contents, mem := Do(view.mem, Delete(ReadyQ, 0)));
      }
    }

    /** The node behind position `k` of the sleep queue, as for_each walks it. */
    lemma ClockNode(k: nat)
      requires Valid() && k <= |view.sleeping|
      ensures |sleepList.Spine| == |view.sleeping| + 1
      ensures sleepList.Spine[k].next == if k < |view.sleeping| then sleepList.Spine[k + 1] else null
    {
      sleepList.NextOnChain(k);
    }

    /** Take one from the clock at position `k`, in place. */
    method AgeNode(cur: Node<S.Clock>, ghost k: nat) returns (aged: S.Clock)
      requires Valid() && !heap.halted && k < |view.sleeping| && cur == sleepList.Spine[k + 1]
      modifies Repr
      ensures Valid() && Repr == old(Repr)
      ensures aged == old(view.sleeping)[k].(countDown := old(view.sleeping)[k].countDown - 1)
      ensures view == old(view).(sleeping := old(view.sleeping)[k := aged])
      ensures sleepList.Spine == old(sleepList.Spine) && sleepList.Freed == old(sleepList.Freed)
    {
      sleepList.NextOnChain(k);
      aged := cur.data.(countDown := cur.data.countDown - 1);
      sleepList.Update(cur, aged, k);
      view := view.(sleeping := sleepList.Contents);
    }

    method FilterSleeping(keep: S.Clock -> bool)
      requires Valid() && !heap.halted
      modifies Repr
      ensures Valid() && Repr == old(Repr)
      ensures view.mem == DoAll(old(view.mem), DropOps(old(view.sleeping), keep, 0))
      ensures view == old(view).(mem := view.mem, sleeping := view.sleeping)
      ensures !heap.halted ==> view.sleeping == Keep(old(view.sleeping), keep)
      ensures sleepList.Freed == old(sleepList.Freed) + Gone(old(sleepList.Spine), sleepList.Spine)
    {
      SiftIsDrop(view.mem, view.sleeping, keep, 0);
      var after := sleepList.Filter(keep, heap);
      heap := after;
      view := view.(sleeping := sleepList.Contents,
                    mem := WithQueue(view.mem, SleepQ, sleepList.Addresses, after));
    }
  }

  /** Filtering the list frees the nodes that `DropOps` names. */
  lemma {:induction false} SiftIsDrop(m: Mem, clocks: seq<S.Clock>, keep: S.Clock -> bool, k: nat)
    requires |m.sleeping| == |clocks| && k <= |clocks|
    ensures DoAll(m, DropOps(clocks[k..], keep, k))
            == (var (nodes, heap) := Sift(clocks, m.sleeping, keep, k, m.heap); WithQueue(m, SleepQ, nodes, heap))
    decreases |clocks| - k
  {
    if m.heap.halted {
      HaltSticks(m, DropOps(clocks[k..], keep, k));
    } else if k < |clocks| {
      assert clocks[k..][1..] == clocks[k + 1..];
      if keep(clocks[k]) {
        SiftIsDrop(m, clocks, keep, k + 1);
      } else {
        var rest := Splice(clocks, k);
        assert rest[k..] == clocks[k + 1..];
        SiftIsDrop(Do(m, Delete(SleepQ, k)), rest, keep, k);
        var ops := DropOps(rest[k..], keep, k);
        assert ([Delete(SleepQ, k)] + ops)[1..] == ops;
      }
    }
  }
}
