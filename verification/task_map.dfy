/** Alamofire's RequestTaskMap: a two-way index between tasks and requests, from which a task
    is dropped when both of its final events have been reported. */
module TaskMap {

  type Task = nat
  type Request = nat

  datatype Events = Events(completed: bool, metricsGathered: bool)

  datatype Event = Completed | MetricsGathered

  // ---------- the reference: one map with what was reported ----------

  datatype Entry = Entry(request: Request, reported: set<Event>)

  type Reference = map<Task, Entry>

  /** Whether reporting `e` drops the task: both events are in, or the platform gathers no
      metrics and the task has completed. */
  predicate Drops(entry: Entry, e: Event, gathersMetrics: bool) {
    entry.reported + {e} == {Completed, MetricsGathered} || (e == Completed && !gathersMetrics)
  }

  function Reported(m: Reference, t: Task, e: Event, gathersMetrics: bool): Reference
    requires t in m
  {
    if Drops(m[t], e, gathersMetrics) then m - {t}
    else m[t := m[t].(reported := m[t].reported + {e})]
  }

  // ---------- the index ----------

  datatype Index = Index(
    tasksToRequests: map<Task, Request>,
    requestsToTasks: map<Request, Task>,
    taskEvents: map<Task, Events>)

  /** The dictionaries are inverse to each other and events are kept for the same tasks. */
  ghost predicate Consistent(x: Index) {
    && x.taskEvents.Keys == x.tasksToRequests.Keys
    && (forall t :: t in x.tasksToRequests ==>
          x.tasksToRequests[t] in x.requestsToTasks && x.requestsToTasks[x.tasksToRequests[t]] == t)
    && (forall r :: r in x.requestsToTasks ==>
          x.requestsToTasks[r] in x.tasksToRequests && x.tasksToRequests[x.requestsToTasks[r]] == r)
    && (forall t :: t in x.taskEvents ==> !(x.taskEvents[t].completed && x.taskEvents[t].metricsGathered))
  }

  ghost function EventSet(e: Events): set<Event> {
    if e.completed && e.metricsGathered then {Completed, MetricsGathered}
    else if e.completed then {Completed}
    else if e.metricsGathered then {MetricsGathered}
    else {}
  }

  /** What an index stands for. */
  ghost function Abs(x: Index): Reference
    requires Consistent(x)
  {
    map t | t in x.tasksToRequests :: Entry(x.tasksToRequests[t], EventSet(x.taskEvents[t]))
  }

  function WithPair(x: Index, t: Task, r: Request): Index {
    Index(x.tasksToRequests[t := r], x.requestsToTasks[r := t], x.taskEvents[t := Events(false, false)])
  }

  /** The pair is mapped already, or neither side is. */
  predicate Compatible(x: Index, t: Task, r: Request) {
    (t in x.tasksToRequests <==> r in x.requestsToTasks) && (t in x.tasksToRequests ==> x.tasksToRequests[t] == r)
  }

  lemma {:induction false} AssociatedConsistent(x: Index, t: Task, r: Request)
    requires Consistent(x) && Compatible(x, t, r)
    ensures Consistent(WithPair(x, t, r))
  {
    var y := WithPair(x, t, r);
    assert y.taskEvents.Keys == x.taskEvents.Keys + {t};
    assert y.tasksToRequests.Keys == x.tasksToRequests.Keys + {t};
    assert forall u :: u in x.tasksToRequests && u != t ==> x.tasksToRequests[u] != r;
    assert forall q :: q in x.requestsToTasks && q != r ==> x.requestsToTasks[q] != t;
  }

  /** The setters do not look for an old partner: assigning keeps the dictionaries inverse exactly
      when there is none to look for. */
  lemma {:induction false} AssignmentExact(x: Index, t: Task, r: Request)
    requires Consistent(x)
    ensures Consistent(WithPair(x, t, r)) <==> Compatible(x, t, r)
  {
    var y := WithPair(x, t, r);
    if Compatible(x, t, r) {
      AssociatedConsistent(x, t, r);
    } else if t in x.tasksToRequests && x.tasksToRequests[t] != r {
      assert x.tasksToRequests[t] in y.requestsToTasks && y.requestsToTasks[x.tasksToRequests[t]] == t;
    } else {
      assert x.requestsToTasks[r] in y.tasksToRequests;
    }
  }

  lemma {:induction false} NoEvents()
    ensures EventSet(Events(false, false)) == {}
  {
  }

  /** Mapping such a pair both ways leaves one entry for it, without events. */
  lemma {:induction false} Associated(x: Index, t: Task, r: Request)
    requires Consistent(x) && Compatible(x, t, r)
    ensures Consistent(WithPair(x, t, r))
    ensures Abs(WithPair(x, t, r)) == Abs(x)[t := Entry(r, {})]
  {
    AssociatedConsistent(x, t, r);
    NoEvents();
    hide EventSet, Consistent;
    var y := WithPair(x, t, r);
    var want := Abs(x)[t := Entry(r, {})];
    EntryAt(x);
    EntryAt(y);
    assert Abs(y).Keys == want.Keys;
    forall u | u in want ensures Abs(y)[u] == want[u] {
      if u != t { assert u in Abs(x) && Abs(y)[u] == Abs(x)[u]; }
    }
  }

  function WithoutPair(x: Index, t: Task, r: Request): Index {
    Index(x.tasksToRequests - {t}, x.requestsToTasks - {r}, x.taskEvents - {t})
  }

  /** Dropping both directions of a pair keeps the rest and only the rest. */
  lemma {:induction false} Disassociated(x: Index, t: Task, r: Request)
    requires Consistent(x) && t in x.tasksToRequests && x.tasksToRequests[t] == r
    ensures Consistent(WithoutPair(x, t, r))
    ensures Abs(WithoutPair(x, t, r)) == Abs(x) - {t}
  {
    hide EventSet;
    var y := WithoutPair(x, t, r);
    assert y.taskEvents.Keys == x.taskEvents.Keys - {t};
    assert y.tasksToRequests.Keys == x.tasksToRequests.Keys - {t};
    assert Consistent(y);
    EntryAt(x);
    EntryAt(y);
  }

  /** No other task has the request of `t`. */
  lemma {:induction false} OnlyTaskOf(x: Index, t: Task)
    requires Consistent(x) && t in Abs(x)
    ensures Abs(x) - {t} == map u | u in Abs(x) && Abs(x)[u].request != Abs(x)[t].request :: Abs(x)[u]
  {
    hide EventSet;
    forall u | u in Abs(x) ensures Abs(x)[u].request == Abs(x)[t].request <==> u == t {
      assert x.requestsToTasks[x.tasksToRequests[u]] == u && x.requestsToTasks[x.tasksToRequests[t]] == t;
    }
  }

  lemma {:induction false} OneEvent(e: Event)
    ensures EventSet(Events(e.Completed?, e.MetricsGathered?)) == {} + {e}
    ensures !Drops(Entry(0, {}), e, true)
  {
    var other := if e.Completed? then MetricsGathered else Completed;
    assert other !in {} + {e} && other in {Completed, MetricsGathered};
  }

  /** Noting a first event keeps everything else. */
  lemma {:induction false} FirstEvent(x: Index, t: Task, e: Event)
    requires Consistent(x) && t in x.taskEvents && x.taskEvents[t] == Events(false, false)
    ensures var y := x.(taskEvents := x.taskEvents[t := Events(e.Completed?, e.MetricsGathered?)]);
      Consistent(y) && Abs(y) == Reported(Abs(x), t, e, true) && !Drops(Abs(x)[t], e, true)
  {
    hide EventSet;
    var y := x.(taskEvents := x.taskEvents[t := Events(e.Completed?, e.MetricsGathered?)]);
    assert y.taskEvents.Keys == x.taskEvents.Keys;
    assert Consistent(y);
    NoEvents();
    OneEvent(e);
    assert Abs(x)[t].reported == {};
    assert !Drops(Abs(x)[t], e, true);
  }

  /** What Abs holds, task by task. */
  lemma {:induction false} EntryAt(x: Index)
    requires Consistent(x)
    ensures Abs(x).Keys == x.tasksToRequests.Keys == x.taskEvents.Keys
    ensures forall t :: t in Abs(x) ==> Abs(x)[t] == Entry(x.tasksToRequests[t], EventSet(x.taskEvents[t]))
  {
  }

  datatype Step = Associate(task: Task, request: Request) | Disassociate(task: Task) | Report(task: Task, event: Event)

  /** Whether the task's other event is in. */
  predicate OtherSeen(x: Index, t: Task, e: Event)
    requires t in x.taskEvents
  {
    if e.Completed? then x.taskEvents[t].metricsGathered else x.taskEvents[t].completed
  }

  predicate Mapped(x: Index, step: Step) {
    !step.Associate? ==> step.task in x.tasksToRequests && step.task in x.taskEvents
  }

  /** A step on the dictionaries. */
  function Updated(x: Index, step: Step): Index
    requires Mapped(x, step)
  {
    match step
    case Associate(t, r) => WithPair(x, t, r)
    case Disassociate(t) => WithoutPair(x, t, x.tasksToRequests[t])
    case Report(t, e) =>
      if OtherSeen(x, t, e) then WithoutPair(x, t, x.tasksToRequests[t])
      else x.(taskEvents := x.taskEvents[t := Events(e.Completed?, e.MetricsGathered?)])
  }

  /** What the call returns. */
  predicate Returns(x: Index, step: Step)
    requires Mapped(x, step)
  {
    step.Report? && OtherSeen(x, step.task, step.event)
  }

  class RequestTaskMap {
    var tasksToRequests: map<Task, Request>
    var requestsToTasks: map<Request, Task>
    var taskEvents: map<Task, Events>

    ghost function View(): Index
      reads this
    {
      Index(tasksToRequests, requestsToTasks, taskEvents)
    }

    constructor ()
      ensures Consistent(View()) && Abs(View()) == map[]
    {
      tasksToRequests, requestsToTasks, taskEvents := map[], map[], map[];
    }

    /** `self[request] = task` */
    method AssignRequest(r: Request, t: Task)
      requires Consistent(View())
      modifies this
      ensures View() == WithPair(old(View()), t, r)
      ensures Consistent(View()) <==> Compatible(old(View()), t, r)
      ensures Consistent(View()) ==> Abs(View()) == old(Abs(View()))[t := Entry(r, {})]
    {
      requestsToTasks := requestsToTasks[r := t];
      tasksToRequests := tasksToRequests[t := r];
      taskEvents := taskEvents[t := Events(false, false)];
      AssignmentExact(old(View()), t, r);
      if Compatible(old(View()), t, r) { Associated(old(View()), t, r); }
    }

    /** `self[task] = request` */
    method AssignTask(t: Task, r: Request)
      requires Consistent(View())
      modifies this
      ensures View() == WithPair(old(View()), t, r)
      ensures Consistent(View()) <==> Compatible(old(View()), t, r)
      ensures Consistent(View()) ==> Abs(View()) == old(Abs(View()))[t := Entry(r, {})]
    {
      tasksToRequests := tasksToRequests[t := r];
      requestsToTasks := requestsToTasks[r := t];
      taskEvents := taskEvents[t := Events(false, false)];
      AssignmentExact(old(View()), t, r);
      if Compatible(old(View()), t, r) { Associated(old(View()), t, r); }
    }

    /** `self[task] = nil`. Not finding the task is fatal. */
    method RemoveTask(t: Task) returns (fatal: bool)
      requires Consistent(View())
      modifies this
      ensures Consistent(View())
      ensures fatal <==> t !in old(Abs(View()))
      ensures Abs(View()) == old(Abs(View())) - {t}
      ensures !fatal ==> View() == Updated(old(View()), Disassociate(t))
    {
      if t !in tasksToRequests {
        assert old(Abs(View())) - {t} == old(Abs(View()));
        return true;
      }
      var r := tasksToRequests[t];
      tasksToRequests := tasksToRequests - {t};
      requestsToTasks := requestsToTasks - {r};
      taskEvents := taskEvents - {t};
      Disassociated(old(View()), t, r);
      return false;
    }

    /** `self[request] = nil`. Not finding the request is fatal. */
    method RemoveRequest(r: Request) returns (fatal: bool)
      requires Consistent(View())
      modifies this
      ensures Consistent(View())
      ensures fatal <==> forall t :: t in old(Abs(View())) ==> old(Abs(View()))[t].request != r
      ensures Abs(View()) == map t | t in old(Abs(View())) && old(Abs(View()))[t].request != r :: old(Abs(View()))[t]
    {
      if r !in requestsToTasks {
        return true;
      }
      var t := requestsToTasks[r];
      OnlyTaskOf(View(), t);
      requestsToTasks := requestsToTasks - {r};
      tasksToRequests := tasksToRequests - {t};
      taskEvents := taskEvents - {t};
      Disassociated(old(View()), t, r);
      return false;
    }

    /** disassociateIfNecessaryAfterGatheringMetricsForTask */
    method AfterGatheringMetrics(t: Task) returns (fatal: bool, disassociated: bool)
      requires Consistent(View())
      modifies this
      ensures Consistent(View())
      ensures var m := old(Abs(View()));
        && (fatal <==> t !in m || MetricsGathered in m[t].reported)
        && (fatal ==> Abs(View()) == m)
        && (!fatal ==> Abs(View()) == Reported(m, t, MetricsGathered, true)
                       && disassociated == Drops(m[t], MetricsGathered, true))
      ensures !fatal ==> View() == Updated(old(View()), Report(t, MetricsGathered))
                         && disassociated == Returns(old(View()), Report(t, MetricsGathered))
    {
      if t !in taskEvents {
        return true, false;
      }
      var events := taskEvents[t];
      if events.metricsGathered {
        return true, false;
      }
      if events.completed {
        fatal := RemoveTask(t);
        return false, true;
      }
      taskEvents := taskEvents[t := Events(false, true)];
      FirstEvent(old(View()), t, MetricsGathered);
      return false, false;
    }

    /** disassociateIfNecessaryAfterCompletingTask */
    method AfterCompleting(t: Task, gathersMetrics: bool) returns (fatal: bool, disassociated: bool)
      requires Consistent(View())
      modifies this
      ensures Consistent(View())
      ensures var m := old(Abs(View()));
        && (fatal <==> t !in m || Completed in m[t].reported)
        && (fatal ==> Abs(View()) == m)
        && (!fatal ==> Abs(View()) == Reported(m, t, Completed, gathersMetrics)
                       && disassociated == Drops(m[t], Completed, gathersMetrics))
      ensures !fatal && !gathersMetrics ==> disassociated && t !in tasksToRequests
      ensures !fatal && gathersMetrics ==> View() == Updated(old(View()), Report(t, Completed))
                                           && disassociated == Returns(old(View()), Report(t, Completed))
    {
      if t !in taskEvents {
        return true, false;
      }
      var events := taskEvents[t];
      if events.completed {
        return true, false;
      }
      if !gathersMetrics || events.metricsGathered {
        fatal := RemoveTask(t);
        return false, true;
      }
      taskEvents := taskEvents[t := Events(true, false)];
      FirstEvent(old(View()), t, Completed);
      return false, false;
    }

    /** count: the precondition the source asserts always holds. */
    method Count() returns (n: nat)
      requires Consistent(View())
      ensures n == |tasksToRequests| == |requestsToTasks| == |taskEvents|
    {
      SameSize(View());
      return |tasksToRequests|;
    }
  }

  /** Inverse dictionaries have equally many entries. */
  lemma {:induction false} SameSize(x: Index)
    requires Consistent(x)
    ensures |x.tasksToRequests| == |x.requestsToTasks| == |x.taskEvents|
    decreases |x.tasksToRequests|
  {
    if x.tasksToRequests.Keys == {} {
      assert forall r :: r in x.requestsToTasks ==> x.requestsToTasks[r] in x.tasksToRequests.Keys;
      assert x.requestsToTasks.Keys == {};
    } else {
      var t :| t in x.tasksToRequests.Keys;
      var r := x.tasksToRequests[t];
      var y := Index(x.tasksToRequests - {t}, x.requestsToTasks - {r}, x.taskEvents - {t});
      assert y.tasksToRequests.Keys == x.tasksToRequests.Keys - {t};
      assert y.requestsToTasks.Keys == x.requestsToTasks.Keys - {r};
      assert y.taskEvents.Keys == x.taskEvents.Keys - {t};
      SameSize(y);
    }
  }

  // ---------- runs ----------

  /** No step crashes, and associations are fresh on both sides. */
  ghost predicate Enabled(m: Reference, step: Step) {
    match step
    case Associate(t, r) => t !in m && forall u :: u in m ==> m[u].request != r
    case Disassociate(t) => t in m
    case Report(t, e) => t in m && e !in m[t].reported
  }

  ghost function Apply(m: Reference, step: Step): Reference
    requires Enabled(m, step)
  {
    match step
    case Associate(t, r) => m[t := Entry(r, {})]
    case Disassociate(t) => m - {t}
    case Report(t, e) => Reported(m, t, e, true)
  }

  ghost predicate IsRun(m: Reference, steps: seq<Step>)
    decreases |steps|
  {
    steps == [] || (Enabled(m, steps[0]) && IsRun(Apply(m, steps[0]), steps[1..]))
  }

  ghost function Final(m: Reference, steps: seq<Step>): Reference
    requires IsRun(m, steps)
    decreases |steps|
  {
    if steps == [] then m else Final(Apply(m, steps[0]), steps[1..])
  }

  /** The events reported for `t`. */
  ghost function Reports(steps: seq<Step>, t: Task): nat {
    if steps == [] then 0
    else Reports(steps[1..], t) + (if steps[0].Report? && steps[0].task == t then 1 else 0)
  }

  ghost predicate Untouched(steps: seq<Step>, t: Task) {
    forall i :: 0 <= i < |steps| ==> steps[i] != Disassociate(t) && !(steps[i].Associate? && steps[i].task == t)
  }

  lemma {:induction false} OneByOne(m: Reference, steps: seq<Step>, t: Task)
    requires IsRun(m, steps) && Untouched(steps, t)
    requires t in m ==> |m[t].reported| < 2
    ensures t in m ==>
      && Reports(steps, t) + |m[t].reported| <= 2
      && (t in Final(m, steps) <==> Reports(steps, t) + |m[t].reported| < 2)
      && (t in Final(m, steps) ==> Final(m, steps)[t].request == m[t].request
                                   && |Final(m, steps)[t].reported| == Reports(steps, t) + |m[t].reported|)
    ensures t !in m ==> Reports(steps, t) == 0 && t !in Final(m, steps)
    decreases |steps|
  {
    if steps != [] {
      var step := steps[0];
      var m1 := Apply(m, step);
      if t in m && step.Report? && step.task == t { ReportCount(m[t].reported, step.event); }
      assert Untouched(steps[1..], t);
      OneByOne(m1, steps[1..], t);
    }
  }

  /** A new event makes the reported set one larger; it is full at two. */
  lemma {:induction false} ReportCount(s: set<Event>, e: Event)
    requires e !in s && |s| < 2
    ensures |s + {e}| == |s| + 1
    ensures s + {e} == {Completed, MetricsGathered} <==> |s| == 1
  {
    var both := {Completed, MetricsGathered};
    assert |both| == 2;
    if |s| == 1 {
      var x :| x in s;
      Singleton(s, x);
      assert x.Completed? != e.Completed?;
      assert x in s + {e} && e in s + {e};
      assert both <= s + {e};
      assert s + {e} <= both;
    }
  }

  lemma {:induction false} Singleton(s: set<Event>, x: Event)
    requires x in s && |s| == 1
    ensures s == {x}
  {
    assert |s - {x}| == 0;
  }

  /** From a fresh association on, and without an explicit removal, the task is mapped until the
      second event is reported, whichever comes first; no third event can be reported. */
  lemma {:induction false} DroppedOnSecondEvent(m: Reference, r: Request, t: Task, steps: seq<Step>)
    requires Enabled(m, Associate(t, r)) && IsRun(Apply(m, Associate(t, r)), steps) && Untouched(steps, t)
    ensures Reports(steps, t) <= 2
    ensures t in Final(Apply(m, Associate(t, r)), steps) <==> Reports(steps, t) < 2
  {
    OneByOne(Apply(m, Associate(t, r)), steps, t);
  }

  // ---------- the flag, and runs of the dictionaries ----------

  /** Whether reporting returns true. */
  ghost predicate Returned(m: Reference, step: Step)
    requires Enabled(m, step)
  {
    step.Report? && Drops(m[step.task], step.event, true)
  }

  /** What the calls of a run return. */
  ghost function Flags(m: Reference, steps: seq<Step>): (flags: seq<bool>)
    requires IsRun(m, steps)
    ensures |flags| == |steps|
    decreases |steps|
  {
    if steps == [] then [] else [Returned(m, steps[0])] + Flags(Apply(m, steps[0]), steps[1..])
  }

  lemma {:induction false} FlagAt(m: Reference, steps: seq<Step>, t: Task, i: nat)
    requires IsRun(m, steps) && Untouched(steps, t) && i < |steps| && steps[i].Report? && steps[i].task == t
    requires t in m ==> |m[t].reported| < 2
    ensures t in m && (Flags(m, steps)[i] <==> Reports(steps[..i + 1], t) + |m[t].reported| == 2)
    decreases |steps|
  {
    var step, rest := steps[0], steps[1..];
    if step.Report? && step.task == t { ReportCount(m[t].reported, step.event); }
    assert steps[..i + 1][1..] == rest[..i];
    if i == 0 {
      assert Reports(steps[..1][1..], t) == 0;
    } else {
      assert Untouched(rest, t);
      FlagAt(Apply(m, step), rest, t, i - 1);
    }
  }

  /** From a fresh association on, and without an explicit removal, reporting an event of the task
      returns true exactly if it is the second one, whichever it is. */
  lemma {:induction false} TrueOnSecondEvent(m: Reference, r: Request, t: Task, steps: seq<Step>, i: nat)
    requires Enabled(m, Associate(t, r)) && IsRun(Apply(m, Associate(t, r)), steps) && Untouched(steps, t)
    requires i < |steps| && steps[i].Report? && steps[i].task == t
    ensures Flags(Apply(m, Associate(t, r)), steps)[i] <==> Reports(steps[..i + 1], t) == 2
  {
    FlagAt(Apply(m, Associate(t, r)), steps, t, i);
  }

  lemma {:induction false} EventSets(x: Index, t: Task, e: Event)
    requires Consistent(x) && t in x.tasksToRequests
    ensures t in Abs(x) && Abs(x)[t].request == x.tasksToRequests[t]
    ensures Completed in Abs(x)[t].reported <==> x.taskEvents[t].completed
    ensures MetricsGathered in Abs(x)[t].reported <==> x.taskEvents[t].metricsGathered
    ensures e !in Abs(x)[t].reported ==>
      && (Drops(Abs(x)[t], e, true) <==> OtherSeen(x, t, e))
      && (!OtherSeen(x, t, e) ==> x.taskEvents[t] == Events(false, false))
  {
    if e !in Abs(x)[t].reported {
      var other := if e.Completed? then MetricsGathered else Completed;
      if OtherSeen(x, t, e) {
        assert Abs(x)[t].reported + {e} == {Completed, MetricsGathered};
      } else {
        assert other !in Abs(x)[t].reported + {e} && other in {Completed, MetricsGathered};
      }
    }
  }

  /** The requests of an index are told apart by their tasks. */
  lemma {:induction false} FreshRequest(x: Index, r: Request)
    requires Consistent(x) && forall u :: u in Abs(x) ==> Abs(x)[u].request != r
    ensures r !in x.requestsToTasks
  {
    EntryAt(x);
  }

  /** The dictionaries follow the reference, step by step. */
  lemma {:induction false} StepRefines(x: Index, step: Step)
    requires Consistent(x) && Enabled(Abs(x), step)
    ensures Mapped(x, step) && Consistent(Updated(x, step)) && Abs(Updated(x, step)) == Apply(Abs(x), step)
    ensures Returns(x, step) == Returned(Abs(x), step)
  {
    hide EventSet, Consistent, Drops;
    EntryAt(x);
    match step
    case Associate(t, r) =>
      FreshRequest(x, r);
      Associated(x, t, r);
    case Disassociate(t) =>
      Disassociated(x, t, x.tasksToRequests[t]);
    case Report(t, e) =>
      EventSets(x, t, e);
      if OtherSeen(x, t, e) {
        Disassociated(x, t, x.tasksToRequests[t]);
      } else {
        FirstEvent(x, t, e);
      }
  }

  /** The dictionaries and the flags of a run of calls. */
  datatype Trail = Trail(index: Index, flags: seq<bool>)

  ghost function Follow(x: Index, steps: seq<Step>): Trail
    decreases |steps|
  {
    if steps == [] || !Mapped(x, steps[0]) then Trail(x, [])
    else
      var rest := Follow(Updated(x, steps[0]), steps[1..]);
      Trail(rest.index, [Returns(x, steps[0])] + rest.flags)
  }

  lemma {:induction false} RunRefines(x: Index, steps: seq<Step>)
    requires Consistent(x) && IsRun(Abs(x), steps)
    ensures var trail := Follow(x, steps);
      Consistent(trail.index) && Abs(trail.index) == Final(Abs(x), steps) && trail.flags == Flags(Abs(x), steps)
    decreases |steps|
  {
    hide Consistent, Abs, Updated, Returns, Mapped, Enabled, Apply, Returned;
    if steps != [] {
      StepRefines(x, steps[0]);
      RunRefines(Updated(x, steps[0]), steps[1..]);
    }
  }

  /** From the empty map, any sequence of fresh associations, removals and event reports keeps the
      dictionaries mutual inverses with events for the same tasks; they hold what the reference
      holds, and the calls return what it says. */
  lemma {:induction false} MapStaysConsistent(steps: seq<Step>)
    requires IsRun(map[], steps)
    ensures var trail := Follow(Index(map[], map[], map[]), steps);
      Consistent(trail.index) && Abs(trail.index) == Final(map[], steps) && trail.flags == Flags(map[], steps)
  {
    assert Abs(Index(map[], map[], map[])) == map[];
    RunRefines(Index(map[], map[], map[]), steps);
  }
}
