/** The install progress tracker. Each call reports an event to the caller's
    progress callback; the model keeps the events the callback has received, in
    order, in the field `events`. */
module Tasks {
  import opened Base

  /** The objects passed to the progress callback. */
  datatype Event =
    | TaskCount(tasks: nat)
    | TaskStart(task: nat, hasProgress: bool)
    | TaskProgress(task: nat, progress: real)
    | TaskEnd(task: nat)
  {
    /** The task number an event carries (the task count carries none). */
    function TaskOf(): nat {
      match this
      case TaskCount(_) => 0
      case TaskStart(t, _) => t
      case TaskProgress(t, _) => t
      case TaskEnd(t) => t
    }
  }

  /** The task count is reported at most once, and before any task starts. */
  ghost predicate CountFirst(events: seq<Event>) {
    (forall i, j :: 0 <= i < j < |events| && events[i].TaskCount? ==> !events[j].TaskCount?) &&
    (forall j :: 0 <= j < |events| && events[j].TaskStart? ==>
       exists i :: 0 <= i < j && events[i].TaskCount?)
  }

  /** Once a task has ended, no later event is about it or an earlier task. */
  ghost predicate EndsAreFinal(events: seq<Event>) {
    forall i, j :: 0 <= i < j < |events| && events[i].TaskEnd? && !events[j].TaskCount? ==>
      events[i].task < events[j].TaskOf()
  }

  /** Some event of `es` reports progress of at least 1 for task `k`. */
  ghost predicate Completed(es: seq<Event>, k: nat)
    decreases |es|
  {
    es != [] &&
    ((es[|es| - 1].TaskProgress? && es[|es| - 1].task == k && es[|es| - 1].progress >= 1.0) ||
     Completed(es[..|es| - 1], k))
  }

  lemma {:induction false} CompletedMeans(es: seq<Event>, k: nat)
    ensures Completed(es, k) <==>
            exists i :: 0 <= i < |es| && es[i].TaskProgress? && es[i].task == k && es[i].progress >= 1.0
    decreases |es|
  {
    if es != [] {
      var front := es[..|es| - 1];
      CompletedMeans(front, k);
      assert forall i :: 0 <= i < |front| ==> front[i] == es[i];
      if !Completed(es, k) {
        forall i | 0 <= i < |es|
          ensures !(es[i].TaskProgress? && es[i].task == k && es[i].progress >= 1.0)
        {
          if i < |front| {
            assert front[i] == es[i];
          }
        }
      }
    }
  }

  lemma ProgressCompletes(es: seq<Event>, k: nat, p: real)
    requires TaskProgress(k, p) in es && p >= 1.0
    ensures Completed(es, k)
  {
    var i :| 0 <= i < |es| && es[i] == TaskProgress(k, p);
    CompletedMeans(es, k);
  }

  /** Every task end is preceded by a progress report of at least 1 for that task:
      the callback always sees a task reach completion before it ends. */
  ghost predicate CompletedBeforeEnd(events: seq<Event>) {
    forall j :: 0 <= j < |events| && events[j].TaskEnd? ==> Completed(events[..j], events[j].task)
  }

  /** What the tracker's state says about the events delivered so far. */
  ghost predicate Inv(events: seq<Event>, tasks: nat, currentTask: nat, currentProgress: real, sentTasks: bool) {
    currentTask >= 1 &&
    CountFirst(events) && EndsAreFinal(events) && CompletedBeforeEnd(events) &&
    (sentTasks <==> exists i :: 0 <= i < |events| && events[i].TaskCount?) &&
    (forall i :: 0 <= i < |events| && events[i].TaskCount? ==> events[i] == TaskCount(tasks)) &&
    (forall i :: 0 <= i < |events| ==> events[i].TaskOf() <= currentTask) &&
    (forall i :: 0 <= i < |events| && events[i].TaskEnd? ==> events[i].task < currentTask) &&
    (currentProgress != 0.0 ==>
       TaskProgress(currentTask, currentProgress) in events)
  }

  lemma CountFirstAppend(events: seq<Event>, x: Event)
    requires CountFirst(events)
    requires x.TaskCount? ==> forall i :: 0 <= i < |events| ==> !events[i].TaskCount?
    requires x.TaskStart? ==> exists i :: 0 <= i < |events| && events[i].TaskCount?
    ensures CountFirst(events + [x])
  {
    var e := events + [x];
    forall j | 0 <= j < |e| && e[j].TaskStart?
      ensures exists i :: 0 <= i < j && e[i].TaskCount?
    {
      if j < |events| {
        var i :| 0 <= i < j && events[i].TaskCount?;
        assert e[i] == events[i];
      } else {
        var i :| 0 <= i < |events| && events[i].TaskCount?;
        assert e[i] == events[i];
      }
    }
  }

  lemma EndsAreFinalAppend(events: seq<Event>, x: Event)
    requires EndsAreFinal(events)
    requires !x.TaskCount? ==> forall i :: 0 <= i < |events| && events[i].TaskEnd? ==> events[i].task < x.TaskOf()
    ensures EndsAreFinal(events + [x])
  {
    var e := events + [x];
    assert forall i :: 0 <= i < |events| ==> e[i] == events[i];
  }

  lemma CompletedAppend(events: seq<Event>, x: Event)
    requires CompletedBeforeEnd(events)
    requires x.TaskEnd? ==> Completed(events, x.task)
    ensures CompletedBeforeEnd(events + [x])
  {
    var e := events + [x];
    assert forall j :: 0 <= j < |events| ==> e[..j] == events[..j];
    assert e[..|events|] == events;
  }

  lemma CountPreserves(events: seq<Event>, tasks: nat, task: nat, progress: real)
    requires Inv(events, tasks, task, progress, false)
    ensures Inv(events + [TaskCount(tasks)], tasks, task, progress, true)
  {
    var e := events + [TaskCount(tasks)];
    assert e[|events|].TaskCount?;
    CountFirstAppend(events, TaskCount(tasks));
    EndsAreFinalAppend(events, TaskCount(tasks));
    CompletedAppend(events, TaskCount(tasks));
  }

  lemma StartPreserves(events: seq<Event>, tasks: nat, task: nat, progress: real, hasProgress: bool)
    requires Inv(events, tasks, task, progress, true)
    ensures Inv(events + [TaskStart(task, hasProgress)], tasks, task, progress, true)
  {
    var x := TaskStart(task, hasProgress);
    var e := events + [x];
    var k :| 0 <= k < |events| && events[k].TaskCount?;
    assert e[k] == events[k];
    CountFirstAppend(events, x);
    EndsAreFinalAppend(events, x);
    CompletedAppend(events, x);
  }

  lemma ProgressPreserves(events: seq<Event>, tasks: nat, task: nat, progress: real, sent: bool, value: real)
    requires Inv(events, tasks, task, progress, sent)
    ensures Inv(events + [TaskProgress(task, value)], tasks, task, value, sent)
  {
    var x := TaskProgress(task, value);
    var e := events + [x];
    assert e[|events|] == x;
    CountFirstAppend(events, x);
    EndsAreFinalAppend(events, x);
    CompletedAppend(events, x);
    if sent {
      var i :| 0 <= i < |events| && events[i].TaskCount?;
      assert e[i] == events[i];
    }
  }

  lemma EndPreserves(events: seq<Event>, tasks: nat, task: nat, progress: real, sent: bool)
    requires Inv(events, tasks, task, progress, sent) && progress >= 1.0
    ensures Inv(events + [TaskEnd(task)], tasks, task + 1, 0.0, sent)
  {
    var x := TaskEnd(task);
    var e := events + [x];
    ProgressCompletes(events, task, progress);
    CountFirstAppend(events, x);
    EndsAreFinalAppend(events, x);
    CompletedAppend(events, x);
    assert forall i :: 0 <= i < |events| ==> e[i] == events[i];
    assert e[|events|] == x;
    if sent {
      var i :| 0 <= i < |events| && events[i].TaskCount?;
      assert e[i].TaskCount?;
    }
  }

  class TaskTracker {
    const tasks: nat
    var currentTask: nat
    var currentProgress: real
    var sentTasks: bool
    /** The events delivered to the callback so far. */
    var events: seq<Event>

    ghost predicate Valid()
      reads this
    {
      Inv(events, tasks, currentTask, currentProgress, sentTasks)
    }

    constructor (tasks: nat)
      ensures Valid()
      ensures this.tasks == tasks && currentTask == 1 && currentProgress == 0.0
      ensures !sentTasks && events == []
    {
      this.tasks := tasks;
      currentTask := 1;
      currentProgress := 0.0;
      sentTasks := false;
      events := [];
    }

    /** `new TaskTracker(callback, tasks)`: a truthy callback that is not a
        function is rejected. Every falsy callback (`undefined`, `null`, `0`,
        `false`, `""`) is `Missing` here, since the source then falls back to a
        callback that does nothing; `WrongType` is a truthy non-function. */
    static method Create(callback: Arg<()>, tasks: nat) returns (r: Result<TaskTracker>)
      ensures r.Err? <==> callback.WrongType?
      ensures r.Err? ==> r.error == CallbackNotFunction
      ensures r.Ok? ==> fresh(r.value) && r.value.Valid() && r.value.events == [] &&
                        r.value.tasks == tasks && r.value.currentTask == 1 &&
                        r.value.currentProgress == 0.0 && !r.value.sentTasks
    {
      if callback.WrongType? {
        return Err(CallbackNotFunction);
      }
      var t := new TaskTracker(tasks);
      return Ok(t);
    }

    /** `startTask(hasProgress)`: the first call also reports the task count. */
    method StartTask(hasProgress: bool)
      requires Valid()
      modifies this
      ensures Valid()
      ensures sentTasks && currentTask == old(currentTask) && currentProgress == old(currentProgress)
      ensures events == old(events) + (if old(sentTasks) then [] else [TaskCount(tasks)]) +
                        [TaskStart(currentTask, hasProgress)]
    {
      if !sentTasks {
        CountPreserves(events, tasks, currentTask, currentProgress);
        sentTasks := true;
        events := events + [TaskCount(tasks)];
      }
      StartPreserves(events, tasks, currentTask, currentProgress, hasProgress);
      events := events + [TaskStart(currentTask, hasProgress)];
    }

    /** `progress(value, force)`: reported when forced or when it moved up by more
        than 0.01 since the last report. */
    method Progress(value: real, force: bool)
      requires Valid()
      modifies this
      ensures Valid()
      ensures currentTask == old(currentTask) && sentTasks == old(sentTasks)
      ensures force || value - old(currentProgress) > 0.01 ==>
                currentProgress == value &&
                events == old(events) + [TaskProgress(currentTask, value)]
      ensures !(force || value - old(currentProgress) > 0.01) ==>
                currentProgress == old(currentProgress) && events == old(events)
    {
      var prev := currentProgress;
      if force || value - prev > 0.01 {
        ProgressPreserves(events, tasks, currentTask, currentProgress, sentTasks, value);
        currentProgress := value;
        events := events + [TaskProgress(currentTask, value)];
      }
    }

    /** `endTask()`: completes the task's progress if it was not complete, reports
        the end and moves on to the next task. */
    method EndTask()
      requires Valid()
      modifies this
      ensures Valid()
      ensures currentTask == old(currentTask) + 1 && currentProgress == 0.0
      ensures sentTasks == old(sentTasks)
      ensures events == old(events) +
                        (if old(currentProgress) < 1.0 then [TaskProgress(old(currentTask), 1.0)] else []) +
                        [TaskEnd(old(currentTask))]
    {
      if currentProgress < 1.0 {
        Progress(1.0, true);
      }
      EndPreserves(events, tasks, currentTask, currentProgress, sentTasks);
      events := events + [TaskEnd(currentTask)];
      currentTask := currentTask + 1;
      currentProgress := 0.0;
    }
  }
}
