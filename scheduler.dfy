/** The single-flight task queue of ki.py and mkv.py: `process_queue` and
    the submit blocks of the message handlers. Tasks are opaque ids; what a
    task does is not modelled, only whether it raises and which tasks are
    submitted while it runs. The queue is run sequentially: the lock, the
    event loop of ki.py and the threads of mkv.py are not modelled. */
module TaskQueue {
  import opened Common
  import opened Text

  type TaskId = nat

  /** What the drain does, in order. */
  datatype Event = Started(id: TaskId) | Finished(id: TaskId, failed: bool)

  /** The tasks submitted while the r-th task of a drain runs. */
  function At(arrivals: seq<seq<TaskId>>, r: nat): seq<TaskId> {
    if r < |arrivals| then arrivals[r] else []
  }

  /** Arrivals r .. b-1, one after the other. */
  function Arrived(arrivals: seq<seq<TaskId>>, r: nat, b: nat): seq<TaskId>
    decreases b - r
  {
    if r >= b then [] else At(arrivals, r) + Arrived(arrivals, r + 1, b)
  }

  /** The tasks a drain starts, in order, from the queue it finds and the
      index r of its next run. */
  function Runs(queue: seq<TaskId>, arrivals: seq<seq<TaskId>>, r: nat): seq<TaskId>
    decreases if r < |arrivals| then |arrivals| - r else 0, |queue|
  {
    if queue == [] then [] else [queue[0]] + Runs(queue[1..] + At(arrivals, r), arrivals, r + 1)
  }

  /** The log a drain writes for the tasks it runs. */
  function RunLog(tasks: seq<TaskId>, failing: set<TaskId>): seq<Event> {
    if tasks == [] then []
    else RunLog(tasks[..|tasks| - 1], failing)
         + [Started(tasks[|tasks| - 1]), Finished(tasks[|tasks| - 1], tasks[|tasks| - 1] in failing)]
  }

  /** A drain is first in, first out and runs every task exactly once: it
      starts the tasks it found queued, in queue order, followed by the
      tasks submitted during its runs, in submission order, and nothing
      else. Whether a task raises plays no part. */
  lemma {:induction false} RunsAreFifo(queue: seq<TaskId>, arrivals: seq<seq<TaskId>>, r: nat)
    ensures Runs(queue, arrivals, r) == queue + Arrived(arrivals, r, r + |Runs(queue, arrivals, r)|)
    decreases if r < |arrivals| then |arrivals| - r else 0, |queue|
  {
    if queue != [] {
      var rest := queue[1..] + At(arrivals, r);
      RunsAreFifo(rest, arrivals, r + 1);
      var n := |Runs(queue, arrivals, r)|;
      assert Arrived(arrivals, r, r + n) == At(arrivals, r) + Arrived(arrivals, r + 1, r + n);
      assert queue == [queue[0]] + queue[1..];
    }
  }

  /** Each run of the log is a start followed by the finish of the same
      task; the log has one such pair per task, in task order. */
  lemma {:induction false} RunLogShape(tasks: seq<TaskId>, failing: set<TaskId>)
    ensures |RunLog(tasks, failing)| == 2 * |tasks|
    ensures forall k :: 0 <= k < |tasks| ==>
              RunLog(tasks, failing)[2 * k] == Started(tasks[k])
              && RunLog(tasks, failing)[2 * k + 1] == Finished(tasks[k], tasks[k] in failing)
  {
    if tasks != [] {
      var init := tasks[..|tasks| - 1];
      RunLogShape(init, failing);
      var l := RunLog(tasks, failing);
      forall k | 0 <= k < |tasks|
        ensures l[2 * k] == Started(tasks[k]) && l[2 * k + 1] == Finished(tasks[k], tasks[k] in failing)
      {
        if k < |init| {
          assert tasks[k] == init[k];
        }
      }
    }
  }

  lemma {:induction false} RunLogAppend(tasks: seq<TaskId>, t: TaskId, failing: set<TaskId>)
    ensures RunLog(tasks + [t], failing) == RunLog(tasks, failing) + [Started(t), Finished(t, t in failing)]
  {
    assert (tasks + [t])[..|tasks|] == tasks;
  }

  /** One turn of the drain keeps its invariant. */
  lemma DrainStep(done: seq<TaskId>, found: seq<TaskId>, arrivals: seq<seq<TaskId>>, r: nat, failing: set<TaskId>, before: seq<Event>)
    requires found != []
    ensures done + Runs(found, arrivals, r) == (done + [found[0]]) + Runs(found[1..] + At(arrivals, r), arrivals, r + 1)
    ensures before + RunLog(done + [found[0]], failing)
            == before + RunLog(done, failing) + [Started(found[0]), Finished(found[0], found[0] in failing)]
  {
    var rest := Runs(found[1..] + At(arrivals, r), arrivals, r + 1);
    assert Runs(found, arrivals, r) == [found[0]] + rest;
    assert done + ([found[0]] + rest) == (done + [found[0]]) + rest;
    RunLogAppend(done, found[0], failing);
    var pair := [Started(found[0]), Finished(found[0], found[0] in failing)];
    assert before + (RunLog(done, failing) + pair) == before + RunLog(done, failing) + pair;
  }

  /** The queue, the running task and the log of what has run. */
  class Scheduler {
    var queue: seq<TaskId>
    var current: Option<TaskId>
    var log: seq<Event>

    constructor ()
      ensures queue == [] && current == None && log == []
    {
      queue, current, log := [], None, [];
    }

    /** The submit block: append at the tail, and start a drain only when
        no task is running. */
    method Submit(id: TaskId) returns (startDrain: bool)
      modifies this
      ensures queue == old(queue) + [id]
      ensures startDrain <==> old(current).None?
      ensures current == old(current) && log == old(log)
    {
      queue := queue + [id];
      startDrain := current.None?;
    }

    /** One turn of process_queue: mark the task as running, run it while
        the tasks `incoming` are submitted, swallow its failure and clear
        the running task. The submissions see a running task and start no
        second drain. */
    method RunTask(t: TaskId, incoming: seq<TaskId>, failing: set<TaskId>)
      modifies this
      ensures queue == old(queue) + incoming && current == None
      ensures log == old(log) + [Started(t), Finished(t, t in failing)]
    {
      current := Some(t);
      log := log + [Started(t)];
      ghost var waiting := queue;
      var i := 0;
      while i < |incoming|
        invariant 0 <= i <= |incoming|
        invariant queue == waiting + incoming[..i]
        invariant current == Some(t) && log == old(log) + [Started(t)]
      {
        var started := Submit(incoming[i]);
        assert !started;
        assert incoming[..i + 1] == incoming[..i] + [incoming[i]];
        i := i + 1;
      }
      assert incoming[..i] == incoming;
      log := log + [Finished(t, t in failing)];
      current := None;
    }

    /** process_queue: pop the head and run it until the queue is empty.
        The tasks submitted while the r-th task runs are `arrivals[r]`. */
    method Drain(arrivals: seq<seq<TaskId>>, failing: set<TaskId>)
      modifies this
      ensures queue == [] && current == None
      ensures log == old(log) + RunLog(Runs(old(queue), arrivals, 0), failing)
    {
      var r := 0;
      ghost var done: seq<TaskId> := [];
      ghost var all := Runs(queue, arrivals, 0);
      while true
        invariant all == done + Runs(queue, arrivals, r)
        invariant log == old(log) + RunLog(done, failing)
        decreases if r < |arrivals| then |arrivals| - r else 0, |queue|
      {
        if queue == [] {
          assert all == done + [] == done;
          current := None;
          break;
        }
        ghost var found := queue;
        var t := queue[0];
        queue := queue[1..];
        RunTask(t, At(arrivals, r), failing);
        assert queue == found[1..] + At(arrivals, r);
        DrainStep(done, found, arrivals, r, failing, old(log));
        if r >= |arrivals| {
          assert |queue| < |found|;
        }
        done := done + [t];
        r := r + 1;
      }
    }
  }

  /* ---------------- the /queue command of mkv.py ---------------- */

  /** The numbered lines "i. name", counting from `first`. */
  function Numbered(names: seq<string>, first: nat): (lines: seq<string>)
    ensures |lines| == |names|
    ensures forall k :: 0 <= k < |names| ==> lines[k] == NatToString(first + k) + ". " + names[k]
  {
    if names == [] then [] else [NatToString(first) + ". " + names[0]] + Numbered(names[1..], first + 1)
  }

  /** The reply to /queue, given the `__name__` of each queued callable.
      Every callable mkv.py queues is its nested function `task`, so there
      the names are always "task": see QueueStatusOfTasks. */
  function QueueStatus(names: seq<string>): string {
    if names == [] then "Queue is empty" else "Current Queue:\n" + Join(Numbered(names, 1), "\n")
  }

  /** The reply is "Queue is empty" exactly for an empty queue; otherwise it
      is the heading followed by one line per queued task, numbered from 1
      in queue order. */
  lemma QueueStatusSpec(names: seq<string>)
    ensures QueueStatus(names) == "Queue is empty" <==> names == []
    ensures names != [] ==>
              QueueStatus(names) == "Current Queue:\n" + Join(Numbered(names, 1), "\n")
              && forall k :: 0 <= k < |names| ==> Numbered(names, 1)[k] == NatToString(k + 1) + ". " + names[k]
  {
    if names != [] {
      var s := QueueStatus(names);
      assert s[0] == 'C';
      assert "Queue is empty"[0] == 'Q';
    }
  }

  /** The reply mkv.py gives with n tasks queued: one "i. task" line per
      queued task, numbered from 1. */
  lemma QueueStatusOfTasks(n: nat)
    ensures var names := seq(n, _ => "task");
            (QueueStatus(names) == "Queue is empty" <==> n == 0)
            && (n > 0 ==> QueueStatus(names) == "Current Queue:\n" + Join(Numbered(names, 1), "\n"))
            && forall k :: 0 <= k < n ==> Numbered(names, 1)[k] == NatToString(k + 1) + ". task"
  {
    var names := seq(n, _ => "task");
    QueueStatusSpec(names);
  }
}
