/** The run queue and the choice of the next thread (`kernel/sched/sched.c`). */
module Scheduler {

  const MAX_RUNNING_THREADS: nat := 65536

  /** Threads are numbered from 1; an empty slot holds 0. */
  const NULL: nat := 0

  /** Slots passed over on the way from a cursor to a slot, going round. */
  function Ahead(cursor: nat, slot: nat): (d: nat)
    requires cursor < MAX_RUNNING_THREADS && slot < MAX_RUNNING_THREADS
    ensures d < MAX_RUNNING_THREADS && (cursor + 1 + d) % MAX_RUNNING_THREADS == slot
  {
    if cursor < slot then slot - cursor - 1 else slot + MAX_RUNNING_THREADS - cursor - 1
  }

  /** A slot whose thread could be taken now. */
  ghost predicate Ready(slots: seq<nat>, locked: set<nat>, i: nat) {
    i < |slots| && slots[i] != NULL && slots[i] !in locked
  }

  /** Where a stored cursor stands: one out of range counts as 0. */
  function Cursor(last: nat): nat {
    if last >= MAX_RUNNING_THREADS then 0 else last
  }

  /** The slot is the first ready one after the cursor. */
  ghost predicate First(slots: seq<nat>, locked: set<nat>, cursor: nat, i: nat)
    requires cursor < MAX_RUNNING_THREADS
  {
    && i < MAX_RUNNING_THREADS && Ready(slots, locked, i)
    && forall j: nat :: j < MAX_RUNNING_THREADS && Ahead(cursor, j) < Ahead(cursor, i) ==> !Ready(slots, locked, j)
  }

  lemma {:induction false} AheadInjective(cursor: nat, i: nat, j: nat)
    requires cursor < MAX_RUNNING_THREADS && i < MAX_RUNNING_THREADS && j < MAX_RUNNING_THREADS
    ensures Ahead(cursor, i) == Ahead(cursor, j) <==> i == j
  {
  }

  /** Taking the first ready slot brings the cursor nearer to every other ready slot. */
  lemma Nearer(slots: seq<nat>, locked: set<nat>, cursor: nat, i: nat, k: nat)
    requires cursor < MAX_RUNNING_THREADS && First(slots, locked, cursor, i)
    requires k < MAX_RUNNING_THREADS && k != i && Ready(slots, locked, k)
    ensures Ahead(i, k) < Ahead(cursor, k)
  {
    AheadInjective(cursor, i, k);
    assert Ahead(cursor, i) <= Ahead(cursor, k);
  }

  /** What one call of `get_next_thread` on a processor sees. */
  datatype Call = Call(slots: seq<nat>, locked: set<nat>)

  /** The cursors of consecutive calls that each took a thread, whatever happened to the queue in between. */
  ghost predicate Calls(calls: seq<Call>, cursors: seq<nat>) {
    && |cursors| == |calls| + 1 && (forall i :: 0 <= i < |cursors| ==> cursors[i] < MAX_RUNNING_THREADS)
    && forall i {:trigger calls[i]} :: 0 <= i < |calls| ==>
          First(calls[i].slots, calls[i].locked, cursors[i], cursors[i + 1])
  }

  /** Bounded waiting: if a slot is ready at each of a row of calls and none of them takes it, then there were no more
      of them than slots ahead of it at the start; so it is taken within `MAX_RUNNING_THREADS` calls. */
  lemma {:induction false} BoundedWaiting(calls: seq<Call>, cursors: seq<nat>, k: nat, n: nat)
    requires Calls(calls, cursors) && k < MAX_RUNNING_THREADS && n <= |calls|
    requires forall i :: 0 <= i < n ==> Ready(calls[i].slots, calls[i].locked, k)
    requires forall i :: 1 <= i <= n ==> cursors[i] != k
    ensures Ahead(cursors[n], k) + n <= Ahead(cursors[0], k)
    ensures n < MAX_RUNNING_THREADS
  {
    if n > 0 {
      BoundedWaiting(calls, cursors, k, n - 1);
      var c := calls[n - 1];
      assert First(c.slots, c.locked, cursors[n - 1], cursors[n]);
      Nearer(c.slots, c.locked, cursors[n - 1], cursors[n], k);
    }
  }

  // ----- the queue -----

  ghost predicate Held(slots: seq<nat>, t: nat, i: nat) {
    i < |slots| && slots[i] == t && forall j: nat :: j < |slots| && slots[j] == t ==> j == i
  }

  /** The `enqueued` flag of a thread is set exactly when one slot holds it, and no slot holds it otherwise. */
  ghost predicate QueueOk(slots: seq<nat>, enqueued: set<nat>) {
    && |slots| == MAX_RUNNING_THREADS && NULL !in enqueued
    && (forall t: nat :: t in enqueued ==> exists i: nat :: Held(slots, t, i))
    && (forall i: nat :: i < |slots| && slots[i] != NULL ==> slots[i] in enqueued)
  }

  lemma Filled(slots: seq<nat>, enqueued: set<nat>, i: nat, t: nat)
    requires QueueOk(slots, enqueued) && i < |slots| && slots[i] == NULL && t !in enqueued && t != NULL
    ensures QueueOk(slots[i := t], enqueued + {t})
  {
    var now := slots[i := t];
    forall u: nat | u in enqueued + {t} ensures exists k: nat :: Held(now, u, k) {
      if u == t {
        assert Held(now, t, i);
      } else {
        var k: nat :| Held(slots, u, k);
        assert Held(now, u, k);
      }
    }
  }

  lemma Emptied(slots: seq<nat>, enqueued: set<nat>, i: nat, t: nat)
    requires QueueOk(slots, enqueued) && i < |slots| && slots[i] == t && t != NULL
    ensures t in enqueued && QueueOk(slots[i := NULL], enqueued - {t})
  {
    var now := slots[i := NULL];
    var p: nat :| Held(slots, t, p);
    forall u: nat | u in enqueued - {t} ensures exists k: nat :: Held(now, u, k) {
      var k: nat :| Held(slots, u, k);
      assert Held(now, u, k);
    }
    forall k: nat | k < |now| && now[k] != NULL ensures now[k] in enqueued - {t} {
      assert slots[k] == t ==> k == p;
    }
  }

  ghost predicate FirstEmpty(slots: seq<nat>, i: int) {
    0 <= i < |slots| && slots[i] == NULL && forall j :: 0 <= j < i ==> slots[j] != NULL
  }

  class RunQueue {
    const queue: array<nat>
    var enqueued: set<nat>
    var locked: set<nat>
    var last: nat

    ghost predicate Valid()
      reads this, queue
    {
      QueueOk(queue[..], enqueued)
    }

    constructor ()
      ensures Valid() && fresh(queue) && enqueued == {} && locked == {} && last == 0
    {
      queue := new nat[MAX_RUNNING_THREADS](_ => NULL);
      enqueued := {};
      locked := {};
      last := 0;
    }

    /** `get_next_thread` for the processor whose cursor is `last`; the thread comes back locked, 0 is none. */
    method GetNextThread() returns (thread: nat)
      requires Valid()
      modifies this`last, this`locked
      ensures last < MAX_RUNNING_THREADS
      ensures thread != NULL ==> First(queue[..], old(locked), Cursor(old(last)), last) && thread == queue[..][last]
                                 && locked == old(locked) + {thread}
      ensures thread == NULL ==> last == Cursor(old(last)) && locked == old(locked)
                                 && forall i: nat :: !Ready(queue[..], old(locked), i)
    {
      var orig: nat := last;
      if orig >= MAX_RUNNING_THREADS {
        orig := 0;
      }
      var index: nat := orig + 1;
      ghost var seen := 0;
      while true
        invariant index <= MAX_RUNNING_THREADS && seen < MAX_RUNNING_THREADS
        invariant seen == Ahead(orig, if index == MAX_RUNNING_THREADS then 0 else index)
        invariant locked == old(locked)
        invariant forall j: nat :: j < MAX_RUNNING_THREADS && Ahead(orig, j) < seen ==> !Ready(queue[..], locked, j)
        decreases MAX_RUNNING_THREADS - seen
      {
        if index >= MAX_RUNNING_THREADS {
          index := 0;
        }
        thread := queue[index];
        if thread != NULL {
          if thread !in locked {
            locked := locked + {thread};
            last := index;
            return;
          }
        }
        Skip(queue[..], locked, orig, index, seen);
        if index == orig {
          break;
        }
        index := index + 1;
        seen := seen + 1;
      }
      last := index;
      thread := NULL;
    }

    /** `sched_enqueue_thread` without its flag for signals. */
    method Enqueue(t: nat) returns (ok: bool)
      requires Valid() && t != NULL
      modifies queue, this`enqueued
      ensures Valid()
      ensures ok ==> enqueued == old(enqueued) + {t}
      ensures !ok ==> enqueued == old(enqueued) && queue[..] == old(queue[..])
      ensures !ok <==> t !in old(enqueued) && NULL !in old(queue[..])
      ensures t in old(enqueued) ==> queue[..] == old(queue[..])
      ensures ok && t !in old(enqueued) ==>
                exists i :: FirstEmpty(old(queue[..]), i) && queue[..] == old(queue[..])[i := t]
    {
      if t in enqueued {
        return true;
      }
      var i := 0;
      while i < MAX_RUNNING_THREADS
        invariant 0 <= i <= MAX_RUNNING_THREADS && queue[..] == old(queue[..]) && enqueued == old(enqueued)
        invariant forall j :: 0 <= j < i ==> queue[j] != NULL
      {
        if queue[i] == NULL {
          Filled(queue[..], enqueued, i, t);
          assert FirstEmpty(old(queue[..]), i);
          queue[i] := t;
          enqueued := enqueued + {t};
          assert queue[..] == old(queue[..])[i := t];
          return true;
        }
        i := i + 1;
      }
      ok := false;
    }

    /** `sched_dequeue_thread`: it never fails, for an enqueued thread is in a slot. */
    method Dequeue(t: nat) returns (ok: bool)
      requires Valid() && t != NULL
      modifies queue, this`enqueued
      ensures Valid() && ok && enqueued == old(enqueued) - {t} && t !in queue[..]
      ensures forall i :: 0 <= i < MAX_RUNNING_THREADS ==>
                queue[i] == if old(queue[i]) == t then NULL else old(queue[i])
    {
      if t !in enqueued {
        return true;
      }
      ghost var p: nat :| Held(queue[..], t, p);
      var i := 0;
      while i < MAX_RUNNING_THREADS
        invariant 0 <= i <= p < MAX_RUNNING_THREADS && queue[..] == old(queue[..]) && enqueued == old(enqueued)
        invariant forall j :: 0 <= j < i ==> queue[j] != t
      {
        if queue[i] == t {
          assert queue[..][i] == t;
          Emptied(queue[..], enqueued, i, t);
          queue[i] := NULL;
          enqueued := enqueued - {t};
          return true;
        }
        assert queue[..][i] != t;
        i := i + 1;
      }
      ok := false;
    }
  }

  /** A slot that is not ready is passed, and the next slot is one further ahead. */
  lemma Skip(slots: seq<nat>, locked: set<nat>, cursor: nat, index: nat, seen: nat)
    requires cursor < MAX_RUNNING_THREADS && index < MAX_RUNNING_THREADS && !Ready(slots, locked, index)
    requires seen == Ahead(cursor, index)
    requires forall j: nat :: j < MAX_RUNNING_THREADS && Ahead(cursor, j) < seen ==> !Ready(slots, locked, j)
    ensures forall j: nat :: j < MAX_RUNNING_THREADS && Ahead(cursor, j) <= seen ==> !Ready(slots, locked, j)
    ensures index == cursor <==> seen == MAX_RUNNING_THREADS - 1
  {
    forall j: nat | j < MAX_RUNNING_THREADS && Ahead(cursor, j) <= seen ensures !Ready(slots, locked, j) {
      AheadInjective(cursor, j, index);
    }
  }
}
