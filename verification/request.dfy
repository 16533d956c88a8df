/** The life cycle of an Alamofire Request and the draining of its response serializers, one step
    for each region under the lock.

    Blocks of the request's serial queue (finish, processing, the end of a serializer, reset) do not
    overlap each other, but registrations and cancel, suspend and resume come from any thread and
    can fall between two lock regions of a block. */
module RequestLifecycle {
  import opened Options

  datatype State = Initialized | Resumed | Suspended | Cancelled | Finished

  /** State.canTransitionTo: the cases in the order of the source. */
  predicate CanTransition(from: State, to: State) {
    match (from, to)
    case (Initialized, _) => true
    case (_, Initialized) => false
    case (Cancelled, _) => false
    case (Finished, _) => false
    case (Resumed, Cancelled) => true
    case (Suspended, Cancelled) => true
    case (Resumed, Suspended) => true
    case (Suspended, Resumed) => true
    case (Suspended, Suspended) => false
    case (Resumed, Resumed) => false
    case (_, Finished) => true
  }

  /** A serializer and the completion it hands over share their registration number. */
  type Id = nat

  datatype MutableState = MutableState(
    state: State,
    responseSerializers: seq<Id>,
    responseSerializerCompletions: seq<Id>,
    responseSerializerProcessingFinished: bool,
    isFinishing: bool)

  /** Where the running block of the serial queue stands, between two lock regions: in finish()
      before the flag is set, before the next serializer is looked up, before everything is cleared,
      or about to call the completions it took out. */
  datatype Point = Idle | Entered | ToRead | ToClear | Calling(completions: seq<Id>)

  /** The queues: the running block, the serializers that were dispatched and have not ended, the
      retries asked for and not carried out, and the extra rounds that registrations asked for. */
  datatype Queues = Queues(point: Point, running: seq<Id>, retries: nat, reprocess: nat)

  /** The request with its history: the number of registrations, the serializers started (without
      those of abandoned attempts) and the completions called. */
  datatype Request = Request(ms: MutableState, queues: Queues, registered: nat, started: seq<Id>, called: seq<Id>)

  function InitialState(): MutableState {
    MutableState(Initialized, [], [], false, false)
  }

  function Init(): Request {
    Request(InitialState(), Queues(Idle, [], 0, 0), 0, [], [])
  }

  // ---------- lock regions ----------

  function MoveTo(ms: MutableState, to: State): MutableState {
    if CanTransition(ms.state, to) then ms.(state := to) else ms
  }

  function NextSerializer(ms: MutableState): Option<Id> {
    if |ms.responseSerializerCompletions| < |ms.responseSerializers|
    then Some(ms.responseSerializers[|ms.responseSerializerCompletions|]) else None
  }

  /** The region that clears everything once no serializer is left. */
  function Drained(ms: MutableState): MutableState {
    MoveTo(ms, Finished).(responseSerializers := [], responseSerializerCompletions := [],
                          responseSerializerProcessingFinished := true, isFinishing := false)
  }

  /** A registration, which reopens a finished request. */
  function Registered(ms: MutableState, id: Id): MutableState {
    ms.(responseSerializers := ms.responseSerializers + [id],
        state := if ms.state == Finished then Resumed else ms.state)
  }

  // ---------- steps ----------

  datatype Step =
    | Append                          // appendResponseSerializer, on any thread
    | Finish                          // finish(): the guard
    | SetFinishing                    // finish(): the flag
    | Read                            // nextResponseSerializer, and dispatching what it found
    | Clear                           // the clearing region of processNextResponseSerializer
    | Call                            // the completions it took out
    | Completes(i: nat, retry: bool)  // the end of a serializer: its completion, or a retry
    | Reset                           // reset(), for a retry
    | Reprocess                       // a round that a registration asked for
    | Cancel
    | Suspend
    | Resume

  /** Blocks start only on an idle queue. A retry starts before finish() or after a serializer
      asked for it. */
  predicate Enabled(r: Request, step: Step) {
    var q := r.queues;
    match step
    case Finish => q.point.Idle?
    case SetFinishing => q.point.Entered?
    case Read => q.point.ToRead?
    case Clear => q.point.ToClear?
    case Call => q.point.Calling?
    case Completes(i, _) => q.point.Idle? && i < |q.running|
    case Reset => q.point.Idle? && (q.retries > 0 || (!r.ms.isFinishing && q.running == []))
    case Reprocess => q.point.Idle? && q.reprocess > 0
    case _ => true
  }

  function Apply(r: Request, step: Step): Request
    requires Enabled(r, step)
  {
    var q := r.queues;
    match step
    case Append =>
      r.(ms := Registered(r.ms, r.registered), registered := r.registered + 1,
         queues := q.(reprocess := q.reprocess + (if r.ms.responseSerializerProcessingFinished then 1 else 0)))
    case Finish => if r.ms.isFinishing then r else r.(queues := q.(point := Entered))
    case SetFinishing => r.(ms := r.ms.(isFinishing := true), queues := q.(point := ToRead))
    case Read =>
      var next := NextSerializer(r.ms);
      if next.None? then r.(queues := q.(point := ToClear))
      else r.(queues := q.(point := Idle, running := q.running + [next.value]), started := r.started + [next.value])
    case Clear =>
      r.(ms := Drained(r.ms), queues := q.(point := Calling(r.ms.responseSerializerCompletions)))
    case Call => r.(called := r.called + q.point.completions, queues := q.(point := Idle))
    case Completes(i, retry) =>
      var q1 := q.(running := q.running[..i] + q.running[i + 1..]);
      if retry then r.(queues := q1.(retries := q.retries + 1))
      else
        var done := r.ms.responseSerializerCompletions + [q.running[i]];
        r.(ms := r.ms.(responseSerializerCompletions := done), queues := q1.(point := ToRead))
    case Reset =>
      r.(ms := r.ms.(isFinishing := false, responseSerializerCompletions := []), started := r.called,
         queues := q.(retries := if q.retries > 0 then q.retries - 1 else 0))
    case Reprocess => r.(queues := q.(reprocess := q.reprocess - 1, point := ToRead))
    case Cancel => r.(ms := MoveTo(r.ms, Cancelled))
    case Suspend => r.(ms := MoveTo(r.ms, Suspended))
    case Resume => r.(ms := MoveTo(r.ms, Resumed))
  }

  ghost predicate IsRun(r: Request, steps: seq<Step>)
    decreases |steps|
  {
    steps == [] || (Enabled(r, steps[0]) && IsRun(Apply(r, steps[0]), steps[1..]))
  }

  ghost function Final(r: Request, steps: seq<Step>): Request
    requires IsRun(r, steps)
    decreases |steps|
  {
    if steps == [] then r else Final(Apply(r, steps[0]), steps[1..])
  }

  // ---------- what the drain promises, and when ----------

  /** The numbers from `a` up to `b`, without `b`. */
  function Between(a: nat, b: nat): (s: seq<Id>)
    requires a <= b
    ensures |s| == b - a && forall i :: 0 <= i < |s| ==> s[i] == a + i
  {
    seq(b - a, i requires 0 <= i => a + i)
  }

  predicate InOrder(s: seq<Id>) {
    forall i :: 0 <= i < |s| ==> s[i] == i
  }

  /** Nothing is running, nothing is queued, and no block is between lock regions that look at
      the serializers. */
  predicate Resting(r: Request) {
    (r.queues.point.Idle? || r.queues.point.Calling?)
    && r.queues.running == [] && r.queues.retries == 0 && r.queues.reprocess == 0
  }

  /** Serializers are started once each, in the order of registration, one at a time; completions
      are called once each, in that order, and only for everything that was started; and when
      nothing is left to do, all of them were called. */
  predicate Orderly(r: Request) {
    var q := r.queues;
    && InOrder(r.started) && |r.started| <= r.registered
    && InOrder(r.called) && |r.called| <= |r.started|
    && (q.running == [] || (|r.started| > |r.called| && q.running == [|r.started| - 1]))
    && (q.point.Calling? ==> q.running == [] && r.called + q.point.completions == r.started)
    && (Resting(r) && q.point.Idle? && r.ms.responseSerializers == [] ==> |r.called| == r.registered)
  }

  /** What a caller must see to when it registers or finishes. Until processing has finished for
      the first time, a registration must not fall between the look-up that found nothing and the
      clearing. After that, registrations and finish() need a request at rest. */
  predicate Clean(r: Request, step: Step) {
    match step
    case Append => if r.ms.responseSerializerProcessingFinished then Resting(r) else !r.queues.point.ToClear?
    case Finish => r.ms.responseSerializerProcessingFinished && !r.ms.isFinishing ==> Resting(r)
    case _ => true
  }

  ghost predicate AllClean(r: Request, steps: seq<Step>)
    requires IsRun(r, steps)
    decreases |steps|
  {
    steps == [] || (Clean(r, steps[0]) && AllClean(Apply(r, steps[0]), steps[1..]))
  }

  /** However the request goes on cleanly, the drain stays in order. */
  ghost predicate StaysOrderly(r: Request) {
    forall steps :: IsRun(r, steps) && AllClean(r, steps) ==> Orderly(Final(r, steps))
  }

  // ---------- the invariant of clean runs ----------

  function Handed(p: Point): seq<Id> {
    if p.Calling? then p.completions else []
  }

  /** The completions called or about to be called. */
  function Out(r: Request): nat {
    |r.called| + |Handed(r.queues.point)|
  }

  predicate Busy(r: Request) {
    r.queues.running != [] || r.queues.retries > 0
  }

  /** The serializers and completions at hand are those numbered from `Out` on. */
  predicate Lists(r: Request) {
    var c, k := Out(r), |r.ms.responseSerializerCompletions|;
    && c + k <= r.registered
    && r.called + Handed(r.queues.point) == Between(0, c)
    && r.ms.responseSerializers == Between(c, r.registered)
    && r.ms.responseSerializerCompletions == Between(c, c + k)
    && r.started == Between(0, c + k + (if Busy(r) then 1 else 0))
  }

  predicate Control(r: Request) {
    var ms, q, k := r.ms, r.queues, |r.ms.responseSerializerCompletions|;
    && (Busy(r) ==> q.point.Idle? && q.reprocess == 0 && Out(r) + k < r.registered)
    && (q.running == [] || (q.running == [Out(r) + k] && q.retries == 0)) && q.retries <= 1
    && (q.point.ToClear? ==> Out(r) + k == r.registered)
    && (!Busy(r) && !q.point.ToRead? && !q.point.ToClear? ==> !ms.isFinishing && k == 0)
    && (q.reprocess > 0 ==> q.reprocess == 1 && ms.responseSerializerProcessingFinished
                            && (q.point.Idle? || q.point.Calling?) && Out(r) < r.registered)
    && (!ms.responseSerializerProcessingFinished ==>
          && Out(r) == 0 && !q.point.Calling?
          && (Busy(r) || q.point.ToRead? || q.point.ToClear? ==> ms.isFinishing))
  }

  /** Once everything is out, the request is over. */
  predicate Closed(r: Request) {
    (r.ms.responseSerializerProcessingFinished && Out(r) == r.registered) ==>
      (r.ms.state == Finished || r.ms.state == Cancelled)
  }

  predicate Inv(r: Request) {
    Lists(r) && Control(r) && Closed(r)
  }

  lemma {:induction false} InvIsOrderly(r: Request)
    requires Inv(r)
    ensures Orderly(r)
  {
    assert r.called == (r.called + Handed(r.queues.point))[..|r.called|];
  }

  lemma {:induction false} BetweenGrows(a: nat, b: nat)
    requires a <= b
    ensures Between(a, b) + [b] == Between(a, b + 1)
  {
  }

  lemma {:induction false} ReadInv(r: Request)
    requires Inv(r) && r.queues.point.ToRead?
    ensures Inv(Apply(r, Read))
  {
    var c, k := Out(r), |r.ms.responseSerializerCompletions|;
    if c + k < r.registered { BetweenGrows(0, c + k); }
  }

  lemma {:induction false} CompletesInv(r: Request, i: nat, retry: bool)
    requires Inv(r) && Enabled(r, Completes(i, retry))
    ensures Inv(Apply(r, Completes(i, retry)))
  {
    var c, k := Out(r), |r.ms.responseSerializerCompletions|;
    BetweenGrows(c, c + k);
    assert i == 0 && r.queues.running[..0] + r.queues.running[1..] == [];
  }

  lemma {:induction false} ClearInv(r: Request)
    requires Inv(r) && r.queues.point.ToClear?
    ensures Inv(Apply(r, Clear))
    ensures var r' := Apply(r, Clear); r'.called + Handed(r'.queues.point) == r'.started == Between(0, r.registered)
  {
    assert r.called + [] == r.called;
  }

  lemma {:induction false} AppendInv(r: Request)
    requires Inv(r) && Clean(r, Append)
    ensures Inv(Apply(r, Append))
  {
    BetweenGrows(Out(r), r.registered);
  }

  lemma {:induction false} BlockInv(r: Request, step: Step)
    requires step.Finish? || step.SetFinishing? || step.Reprocess?
    requires Inv(r) && Enabled(r, step) && Clean(r, step)
    ensures Inv(Apply(r, step))
  {
  }

  lemma {:induction false} CallInv(r: Request)
    requires Inv(r) && Enabled(r, Call)
    ensures Inv(Apply(r, Call))
  {
    var all := r.called + r.queues.point.completions;
    assert all + [] == all;
  }

  lemma {:induction false} ResetInv(r: Request)
    requires Inv(r) && Enabled(r, Reset)
    ensures Inv(Apply(r, Reset))
  {
    assert r.called + [] == r.called;
  }

  /** Cancelling, suspending and resuming touch nothing that the drain looks at. */
  lemma {:induction false} MoveInv(r: Request, to: State)
    requires Inv(r) && to != Initialized && to != Finished
    ensures Inv(r.(ms := MoveTo(r.ms, to)))
  {
    hide CanTransition;
    TransitionTable(r.ms.state, to);
  }

  /** Every clean step keeps the invariant. */
  lemma {:induction false} StepInv(r: Request, step: Step)
    requires Inv(r) && Enabled(r, step) && Clean(r, step)
    ensures Inv(Apply(r, step))
  {
    hide Inv, MoveTo, Clean;
    match step
    case Append => AppendInv(r);
    case Read => ReadInv(r);
    case Clear => ClearInv(r);
    case Call => CallInv(r);
    case Completes(i, retry) => CompletesInv(r, i, retry);
    case Reset => ResetInv(r);
    case Cancel => MoveInv(r, Cancelled);
    case Suspend => MoveInv(r, Suspended);
    case Resume => MoveInv(r, Resumed);
    case _ => BlockInv(r, step);
  }

  lemma {:induction false} RunInv(r: Request, steps: seq<Step>)
    requires IsRun(r, steps) && AllClean(r, steps) && Inv(r)
    ensures Inv(Final(r, steps))
    decreases |steps|
  {
    hide Inv, Apply, Enabled, Clean;
    if steps != [] {
      StepInv(r, steps[0]);
      RunInv(Apply(r, steps[0]), steps[1..]);
    }
  }

  lemma {:induction false} InitInv()
    ensures Inv(Init())
  {
  }

  /** Over every clean run the drain is in order. */
  lemma {:induction false} SerializersDrainInOrder(steps: seq<Step>)
    requires IsRun(Init(), steps) && AllClean(Init(), steps)
    ensures Orderly(Final(Init(), steps))
  {
    InitInv();
    RunInv(Init(), steps);
    InvIsOrderly(Final(Init(), steps));
  }

  /** Completions are taken out only when every registered serializer has been run. */
  lemma {:induction false} CompletionsAfterLast(steps: seq<Step>)
    requires IsRun(Init(), steps) && AllClean(Init(), steps) && Final(Init(), steps).queues.point.ToClear?
    ensures var r := Final(Init(), steps);
      r.called + Apply(r, Clear).queues.point.completions == r.started == Between(0, r.registered)
  {
    hide IsRun, Final, AllClean;
    InitInv();
    RunInv(Init(), steps);
    ClearInv(Final(Init(), steps));
  }

  // ---------- the condition is exact ----------

  /** A clean continuation that ends in disorder. */
  ghost predicate Spoils(r: Request, steps: seq<Step>) {
    IsRun(r, steps) && AllClean(r, steps) && !Orderly(Final(r, steps))
  }

  lemma {:induction false} SpoilsNow(r: Request)
    requires !Orderly(r)
    ensures Spoils(r, [])
  {
  }

  lemma {:induction false} SpoilsAfter(r: Request, step: Step, steps: seq<Step>)
    requires Enabled(r, step) && Clean(r, step) && Spoils(Apply(r, step), steps)
    ensures Spoils(r, [step] + steps)
  {
    hide Enabled, Apply, Clean, Orderly;
    assert ([step] + steps)[1..] == steps;
  }

  /** The next look-up finds the serializer that was started last. */
  predicate AboutToRepeat(r: Request) {
    r.started != [] && NextSerializer(r.ms) == Some(r.started[|r.started| - 1])
  }

  lemma {:induction false} StartedAgain(r: Request)
    requires AboutToRepeat(r) && r.queues.point.ToRead?
    ensures Spoils(r, [Read])
  {
    var r1 := Apply(r, Read);
    var n := |r.started|;
    assert r1.started[n] == r1.started[n - 1];
    assert !Orderly(r1);
    SpoilsNow(r1);
    SpoilsAfter(r, Read, []);
  }

  lemma {:induction false} ReprocessedAgain(r: Request)
    requires AboutToRepeat(r) && r.queues.point.Idle? && r.queues.reprocess > 0
    ensures Spoils(r, [Reprocess, Read])
  {
    hide AboutToRepeat, NextSerializer;
    AboutSame(r, Apply(r, Reprocess));
    StartedAgain(Apply(r, Reprocess));
    SpoilsAfter(r, Reprocess, [Read]);
  }

  lemma {:induction false} AboutSame(r: Request, r': Request)
    requires AboutToRepeat(r) && r'.started == r.started && NextSerializer(r'.ms) == NextSerializer(r.ms)
    ensures AboutToRepeat(r')
  {
  }

  /** A round that starts a serializer while another round is queued: both start the same one. */
  lemma {:induction false} TwoRounds(r: Request)
    requires r.queues.point.ToRead? && r.queues.reprocess > 0 && NextSerializer(r.ms).Some?
    ensures Spoils(r, [Read, Reprocess, Read])
  {
    var r1 := Apply(r, Read);
    assert AboutToRepeat(r1);
    ReprocessedAgain(r1);
    SpoilsAfter(r, Read, [Reprocess, Read]);
  }

  lemma {:induction false} FinishSpoils(r: Request) returns (rest: seq<Step>)
    requires Inv(r) && Enabled(r, Finish) && !Clean(r, Finish)
    ensures Spoils(Apply(r, Finish), rest)
  {
    var r1 := Apply(r, Finish);
    var r2 := Apply(r1, SetFinishing);
    if Busy(r) {
      assert AboutToRepeat(r2);
      StartedAgain(r2);
      rest := [SetFinishing] + [Read];
      SpoilsAfter(r1, SetFinishing, [Read]);
    } else {
      TwoRounds(r2);
      rest := [SetFinishing] + [Read, Reprocess, Read];
      SpoilsAfter(r1, SetFinishing, [Read, Reprocess, Read]);
    }
  }

  /** A registration between the look-up that found nothing and the clearing is lost: its
      serializer is never started and its completion never called. */
  lemma {:induction false} RegistrationLost(r: Request) returns (rest: seq<Step>)
    requires Inv(r) && r.queues.point.ToClear?
    ensures Spoils(Apply(r, Append), rest)
    ensures var last := Final(Apply(r, Append), rest);
      Resting(last) && last.queues.point.Idle? && last.ms.responseSerializers == []
      && r.registered !in last.started && r.registered !in last.called
  {
    var r1 := Apply(r, Append);
    var r2 := Apply(r1, Clear);
    var r3 := Apply(r2, Call);
    ClearInv(r);
    assert r3.called == Between(0, r.registered) == r3.started && r3.registered == r.registered + 1;
    if r3.queues.reprocess == 0 {
      rest := [Clear] + ([Call] + []);
      SpoilsNow(r3);
      EndsAt(r3);
      SpoilsAfter(r2, Call, []);
      EndsAfter(r2, Call, []);
      SpoilsAfter(r1, Clear, [Call] + []);
      EndsAfter(r1, Clear, [Call] + []);
    } else {
      var tail := EmptyRound(r3);
      rest := [Clear] + ([Call] + tail);
      SpoilsAfter(r2, Call, tail);
      EndsAfter(r2, Call, tail);
      SpoilsAfter(r1, Clear, [Call] + tail);
      EndsAfter(r1, Clear, [Call] + tail);
    }
  }

  /** A queued round finds nothing left to do. */
  lemma {:induction false} EmptyRound(r: Request) returns (rest: seq<Step>)
    requires r.queues == Queues(Idle, [], 0, 1) && |r.called| < r.registered
    requires r.ms.responseSerializers == [] && r.ms.responseSerializerCompletions == []
    ensures Spoils(r, rest)
    ensures var last := Final(r, rest);
      && Resting(last) && last.queues.point.Idle? && last.ms.responseSerializers == []
      && last.started == r.started && last.called == r.called
  {
    var r1 := Apply(r, Reprocess);
    var r2 := Apply(r1, Read);
    var r3 := Apply(r2, Clear);
    var r4 := Apply(r3, Call);
    assert r4.called == r.called;
    SpoilsNow(r4);
    EndsAt(r4);
    SpoilsAfter(r3, Call, []);
    EndsAfter(r3, Call, []);
    SpoilsAfter(r2, Clear, [Call] + []);
    EndsAfter(r2, Clear, [Call] + []);
    SpoilsAfter(r1, Read, [Clear] + ([Call] + []));
    EndsAfter(r1, Read, [Clear] + ([Call] + []));
    rest := [Reprocess] + ([Read] + ([Clear] + ([Call] + [])));
    SpoilsAfter(r, Reprocess, [Read] + ([Clear] + ([Call] + [])));
    EndsAfter(r, Reprocess, [Read] + ([Clear] + ([Call] + [])));
  }

  lemma {:induction false} EndsAt(r: Request)
    ensures IsRun(r, []) && Final(r, []) == r
  {
  }

  lemma {:induction false} EndsAfter(r: Request, step: Step, steps: seq<Step>)
    requires Enabled(r, step) && IsRun(Apply(r, step), steps)
    ensures IsRun(r, [step] + steps) && Final(r, [step] + steps) == Final(Apply(r, step), steps)
  {
    hide Enabled, Apply;
    assert ([step] + steps)[1..] == steps;
  }

  /** A registration after processing has finished, on a request that is not at rest, makes some
      serializer start twice. */
  lemma {:induction false} LateSpoils(r: Request) returns (rest: seq<Step>)
    requires Inv(r) && r.ms.responseSerializerProcessingFinished && !Resting(r) && !r.queues.point.ToClear?
    ensures Spoils(Apply(r, Append), rest)
  {
    var r1 := Apply(r, Append);
    if r.queues.point.ToRead? {
      rest := [Read, Reprocess, Read];
      TwoRounds(r1);
    } else if r.queues.point.Entered? {
      TwoRounds(Apply(r1, SetFinishing));
      rest := [SetFinishing] + [Read, Reprocess, Read];
      SpoilsAfter(r1, SetFinishing, [Read, Reprocess, Read]);
    } else if Busy(r) {
      rest := [Reprocess, Read];
      assert AboutToRepeat(r1);
      ReprocessedAgain(r1);
    } else {
      rest := LateTwice(r1);
    }
  }

  /** Two rounds are queued and there is something to start. */
  lemma {:induction false} LateTwice(r: Request) returns (rest: seq<Step>)
    requires (r.queues.point.Idle? || r.queues.point.Calling?) && r.queues.reprocess == 2
    requires NextSerializer(r.ms).Some?
    ensures Spoils(r, rest)
  {
    hide NextSerializer;
    var r1 := if r.queues.point.Calling? then Apply(r, Call) else r;
    TwoRounds(Apply(r1, Reprocess));
    rest := [Reprocess] + [Read, Reprocess, Read];
    SpoilsAfter(r1, Reprocess, [Read, Reprocess, Read]);
    if r.queues.point.Calling? {
      SpoilsAfter(r, Call, rest);
      rest := [Call] + rest;
    }
  }

  /** The condition is exact. Wherever a clean run has led, a step keeps the drain in order, in
      every clean continuation, if and only if the step is clean. */
  lemma {:induction false} CleanIsExact(steps: seq<Step>, step: Step)
    requires IsRun(Init(), steps) && AllClean(Init(), steps) && Enabled(Final(Init(), steps), step)
    ensures var r := Final(Init(), steps); StaysOrderly(Apply(r, step)) <==> Clean(r, step)
  {
    hide IsRun, Final, AllClean, Orderly, Lists, Control, Closed, Apply, Enabled, Clean;
    InitInv();
    RunInv(Init(), steps);
    var r := Final(Init(), steps);
    if Clean(r, step) {
      StepInv(r, step);
      forall rest | IsRun(Apply(r, step), rest) && AllClean(Apply(r, step), rest)
        ensures Orderly(Final(Apply(r, step), rest))
      {
        RunInv(Apply(r, step), rest);
        InvIsOrderly(Final(Apply(r, step), rest));
      }
    } else {
      var rest := UncleanSpoils(r, step);
      assert IsRun(Apply(r, step), rest);
    }
  }

  lemma {:induction false} UncleanSpoils(r: Request, step: Step) returns (rest: seq<Step>)
    requires Inv(r) && Enabled(r, step) && !Clean(r, step)
    ensures Spoils(Apply(r, step), rest)
  {
    hide Inv, Spoils;
    if step.Finish? {
      rest := FinishSpoils(r);
    } else if r.queues.point.ToClear? {
      rest := RegistrationLost(r);
    } else {
      rest := LateSpoils(r);
    }
  }

  // ---------- two runs ----------

  /** The finished request without a serializer. */
  function Done(): Request {
    Request(MutableState(Finished, [], [], true, false), Queues(Idle, [], 0, 0), 0, [], [])
  }

  /** finish() without any serializer, followed by `rest`. */
  lemma {:induction false} AfterEmptyDrain(rest: seq<Step>) returns (steps: seq<Step>)
    requires IsRun(Done(), rest)
    ensures steps == [Finish] + ([SetFinishing] + ([Read] + ([Clear] + ([Call] + rest))))
    ensures IsRun(Init(), steps) && Final(Init(), steps) == Final(Done(), rest)
  {
    hide IsRun, Final;
    var r1 := Apply(Init(), Finish);
    var r2 := Apply(r1, SetFinishing);
    var r3 := Apply(r2, Read);
    var r4 := Apply(r3, Clear);
    assert Apply(r4, Call) == Done();
    EndsAfter(r4, Call, rest);
    EndsAfter(r3, Clear, [Call] + rest);
    EndsAfter(r2, Read, [Clear] + ([Call] + rest));
    EndsAfter(r1, SetFinishing, [Read] + ([Clear] + ([Call] + rest)));
    EndsAfter(Init(), Finish, [SetFinishing] + ([Read] + ([Clear] + ([Call] + rest))));
    steps := [Finish] + ([SetFinishing] + ([Read] + ([Clear] + ([Call] + rest))));
  }

  /** A registration between the two regions of the processing: its serializer is never started,
      and nothing is left to do. */
  lemma {:induction false} LostBetweenRegions() returns (steps: seq<Step>)
    ensures steps == [Finish] + ([SetFinishing] + ([Read] + ([Append] + ([Clear] + ([Call] + [])))))
    ensures IsRun(Init(), steps)
    ensures var r := Final(Init(), steps);
      Resting(r) && r.ms.responseSerializers == [] && r.registered == 1 && r.started == r.called == []
  {
    hide IsRun, Final;
    var r1 := Apply(Init(), Finish);
    var r2 := Apply(r1, SetFinishing);
    var r3 := Apply(r2, Read);
    var r4 := Apply(r3, Append);
    var r5 := Apply(r4, Clear);
    EndsAt(Apply(r5, Call));
    EndsAfter(r5, Call, []);
    EndsAfter(r4, Clear, [Call] + []);
    EndsAfter(r3, Append, [Clear] + ([Call] + []));
    EndsAfter(r2, Read, [Append] + ([Clear] + ([Call] + [])));
    EndsAfter(r1, SetFinishing, [Read] + ([Append] + ([Clear] + ([Call] + []))));
    steps := [Finish] + ([SetFinishing] + ([Read] + ([Append] + ([Clear] + ([Call] + [])))));
    EndsAfter(Init(), Finish, [SetFinishing] + ([Read] + ([Append] + ([Clear] + ([Call] + [])))));
  }

  /** Two registrations after the processing has finished ask for two rounds, and both rounds
      start the first serializer. */
  lemma {:induction false} LateRegistrationStartsTwice() returns (steps: seq<Step>)
    ensures IsRun(Init(), steps) && Final(Init(), steps).started == [0, 0]
  {
    hide IsRun, Final;
    var r1 := Apply(Done(), Append);
    var r2 := Apply(r1, Append);
    var r3 := Apply(r2, Reprocess);
    var r4 := Apply(r3, Read);
    var r5 := Apply(r4, Reprocess);
    EndsAt(Apply(r5, Read));
    EndsAfter(r5, Read, []);
    EndsAfter(r4, Reprocess, [Read] + []);
    EndsAfter(r3, Read, [Reprocess] + ([Read] + []));
    EndsAfter(r2, Reprocess, [Read] + ([Reprocess] + ([Read] + [])));
    EndsAfter(r1, Append, [Reprocess] + ([Read] + ([Reprocess] + ([Read] + []))));
    EndsAfter(Done(), Append, [Append] + ([Reprocess] + ([Read] + ([Reprocess] + ([Read] + [])))));
    steps := AfterEmptyDrain([Append] + ([Append] + ([Reprocess] + ([Read] + ([Reprocess] + ([Read] + []))))));
  }

  // ---------- attempts ----------

  /** A step of an attempt that is not retried. */
  predicate NoRetry(step: Step) {
    step != Reset && !(step.Completes? && step.retry)
  }

  /** The serializers that ended. */
  ghost function Ended(steps: seq<Step>): nat {
    if steps == [] then 0 else Ended(steps[1..]) + (if steps[0].Completes? then 1 else 0)
  }

  lemma {:induction false} StepCounts(r: Request, step: Step)
    requires Inv(r) && Enabled(r, step) && Clean(r, step) && NoRetry(step)
    ensures var r' := Apply(r, step);
      Out(r') + |r'.ms.responseSerializerCompletions|
      == Out(r) + |r.ms.responseSerializerCompletions| + (if step.Completes? then 1 else 0)
    ensures r.queues.retries == 0 ==> Apply(r, step).queues.retries == 0
  {
    hide Lists, Control;
  }

  lemma {:induction false} RunCounts(r: Request, steps: seq<Step>)
    requires Inv(r) && IsRun(r, steps) && AllClean(r, steps)
    requires forall i :: 0 <= i < |steps| ==> NoRetry(steps[i])
    ensures var r' := Final(r, steps);
      && Inv(r')
      && Out(r') + |r'.ms.responseSerializerCompletions| == Out(r) + |r.ms.responseSerializerCompletions| + Ended(steps)
      && (r.queues.retries == 0 ==> r'.queues.retries == 0)
    decreases |steps|
  {
    hide Inv, Apply, Enabled, Clean, Out;
    if steps != [] {
      StepInv(r, steps[0]);
      StepCounts(r, steps[0]);
      RunCounts(Apply(r, steps[0]), steps[1..]);
    }
  }

  /** An attempt without retries, from any reachable state before finish() and with anything
      interleaved that is clean: at most as many serializers end as are registered, and once that
      many have ended and the queue is idle, all of them were started and all completions called. */
  lemma {:induction false} AttemptDrains(r: Request, steps: seq<Step>)
    requires Inv(r) && !r.ms.responseSerializerProcessingFinished && !r.ms.isFinishing
    requires IsRun(r, steps) && AllClean(r, steps) && forall i :: 0 <= i < |steps| ==> NoRetry(steps[i])
    ensures var r' := Final(r, steps);
      && Ended(steps) <= r'.registered
      && (Ended(steps) == r'.registered && r'.queues.point.Idle? ==>
            && r'.started == r'.called == Between(0, r'.registered) && r'.ms.responseSerializers == []
            && (r'.registered > 0 ==> r'.ms.state == Finished || r'.ms.state == Cancelled))
  {
    hide IsRun, Final, AllClean, Ended;
    RunCounts(r, steps);
    var r' := Final(r, steps);
    if r'.queues.point.Idle? { assert r'.called + [] == r'.called; }
  }

  /** The steps the request takes by itself, without a retry. */
  predicate Internal(step: Step) {
    step.SetFinishing? || step.Read? || step.Clear? || step.Call? || step.Reprocess?
    || (step.Completes? && !step.retry)
  }

  /** What is left to do. */
  function Work(r: Request): nat {
    var ms, q := r.ms, r.queues;
    var left := |ms.responseSerializers| - |ms.responseSerializerCompletions|;
    4 * (if left > 0 then left else 0) + |q.running| + 4 * q.reprocess
    + match q.point case Idle => 0 case Calling(_) => 1 case ToClear => 2 case ToRead => 3 case Entered => 4
  }

  lemma {:induction false} StepWorks(r: Request, step: Step)
    requires Inv(r) && Enabled(r, step) && Internal(step)
    ensures Work(Apply(r, step)) < Work(r)
  {
  }

  /** From finish() on: the flag is about to be set or set, or everything is out. */
  predicate UnderWay(r: Request) {
    r.queues.point.Entered? || r.ms.isFinishing
    || (r.ms.responseSerializerProcessingFinished && Out(r) == r.registered)
  }

  lemma {:induction false} StepUnderWay(r: Request, step: Step)
    requires Inv(r) && Enabled(r, step) && Internal(step) && UnderWay(r)
    ensures UnderWay(Apply(r, step))
  {
  }

  lemma {:induction false} RunUnderWay(r: Request, steps: seq<Step>)
    requires Inv(r) && IsRun(r, steps) && UnderWay(r) && r.queues.retries == 0
    requires forall i :: 0 <= i < |steps| ==> Internal(steps[i])
    ensures var r' := Final(r, steps);
      && Inv(r') && UnderWay(r') && r'.queues.retries == 0 && r'.registered == r.registered
      && |steps| + Work(r') <= Work(r)
    decreases |steps|
  {
    hide Inv, UnderWay, Work;
    if steps != [] {
      StepInv(r, steps[0]);
      StepUnderWay(r, steps[0]);
      StepWorks(r, steps[0]);
      RunUnderWay(Apply(r, steps[0]), steps[1..]);
    }
  }

  /** Once finish() was called and as long as nobody asks for a retry, the request gets done by
      itself: its steps are bounded in number, and it can stop only with every serializer run and
      every completion called. */
  lemma {:induction false} FinishGetsDone(r: Request, steps: seq<Step>)
    requires Inv(r) && !r.ms.responseSerializerProcessingFinished && !r.ms.isFinishing && r.queues.point.Idle?
    requires IsRun(Apply(r, Finish), steps) && forall i :: 0 <= i < |steps| ==> Internal(steps[i])
    ensures |steps| <= 4 * r.registered + 4
    ensures var r' := Final(Apply(r, Finish), steps);
      (forall step :: Internal(step) ==> !Enabled(r', step)) ==>
        && r'.started == r'.called == Between(0, r.registered) && r'.ms.responseSerializerProcessingFinished
        && (r'.ms.state == Finished || r'.ms.state == Cancelled)
  {
    hide IsRun, Final;
    var r1 := Apply(r, Finish);
    StepInv(r, Finish);
    RunUnderWay(r1, steps);
    var r' := Final(r1, steps);
    if forall step :: Internal(step) ==> !Enabled(r', step) {
      Stopped(r');
    }
  }

  lemma {:induction false} Stopped(r: Request)
    requires Inv(r) && UnderWay(r) && r.queues.retries == 0
    requires forall step :: Internal(step) ==> !Enabled(r, step)
    ensures r.started == r.called == Between(0, r.registered) && r.ms.responseSerializerProcessingFinished
    ensures r.ms.state == Finished || r.ms.state == Cancelled
  {
    assert !Enabled(r, SetFinishing) && !Enabled(r, Read) && !Enabled(r, Clear) && !Enabled(r, Call);
    assert !Enabled(r, Completes(0, false)) && !Enabled(r, Reprocess);
    assert r.called + [] == r.called;
  }

  // ---------- cancelled is final ----------

  lemma {:induction false} StepCancelled(r: Request, step: Step)
    requires r.ms.state == Cancelled && Enabled(r, step)
    ensures Apply(r, step).ms.state == Cancelled
  {
  }

  /** In every run, clean or not, a cancelled request stays cancelled. */
  lemma {:induction false} CancelledForever(r: Request, steps: seq<Step>)
    requires IsRun(r, steps) && r.ms.state == Cancelled
    ensures Final(r, steps).ms.state == Cancelled
    decreases |steps|
  {
    hide Apply, Enabled;
    if steps != [] {
      StepCancelled(r, steps[0]);
      CancelledForever(Apply(r, steps[0]), steps[1..]);
    }
  }

  /** The moves canTransitionTo allows, one by one. */
  lemma {:induction false} TransitionTable(from: State, to: State)
    ensures CanTransition(from, to) <==>
      || from == Initialized
      || (from == Resumed && to == Suspended)
      || (from == Resumed && to == Cancelled)
      || (from == Resumed && to == Finished)
      || (from == Suspended && to == Resumed)
      || (from == Suspended && to == Cancelled)
      || (from == Suspended && to == Finished)
  {
  }

  /** Where each step leads: cancel, suspend and resume move a request that is neither cancelled nor
      finished, the clearing finishes every request that is not cancelled, a registration reopens a
      finished one, and no other step moves the state. */
  lemma {:induction false} StateAfter(r: Request, step: Step)
    requires Enabled(r, step)
    ensures var from, to := r.ms.state, Apply(r, step).ms.state;
      var over := from == Cancelled || from == Finished;
      match step
      case Cancel => to == if from == Finished then Finished else Cancelled
      case Suspend => to == if over then from else Suspended
      case Resume => to == if over then from else Resumed
      case Clear => to == if from == Cancelled then Cancelled else Finished
      case Append => to == if from == Finished then Resumed else from
      case _ => to == from
  {
  }

  // ---------- the class ----------

  lemma {:induction false} RunGrows(r: Request, steps: seq<Step>, step: Step)
    requires IsRun(r, steps) && Enabled(Final(r, steps), step)
    ensures IsRun(r, steps + [step]) && Final(r, steps + [step]) == Apply(Final(r, steps), step)
    decreases |steps|
  {
    hide Apply, Enabled;
    if steps != [] {
      RunGrows(Apply(r, steps[0]), steps[1..], step);
      assert (steps + [step])[1..] == steps[1..] + [step];
    } else {
      assert [step][1..] == [];
    }
  }

  /** The protected state of a request. `trace` records its lock regions, so that a valid object
      holds what a run from the start leads to and everything proved of runs holds of it. */
  class ProtectedRequest {
    var ms: MutableState
    ghost var trace: seq<Step>

    ghost predicate Valid()
      reads this
    {
      IsRun(Init(), trace) && Final(Init(), trace).ms == ms
    }

    /** The request and its queues as the trace leaves them. */
    ghost function Now(): Request
      requires Valid()
      reads this
    {
      Final(Init(), trace)
    }

    constructor ()
      ensures Valid() && trace == []
    {
      ms := MutableState(Initialized, [], [], false, false);
      trace := [];
    }

    ghost method Record(step: Step)
      requires IsRun(Init(), trace) && Enabled(Final(Init(), trace), step)
      requires ms == Apply(Final(Init(), trace), step).ms
      modifies this`trace
      ensures Valid() && trace == old(trace) + [step]
    {
      RunGrows(Init(), trace, step);
      trace := trace + [step];
    }

    /** nextResponseSerializer: what it returns is dispatched; otherwise the clearing follows. */
    method NextResponseSerializer() returns (serializer: Option<Id>)
      requires Valid() && Enabled(Now(), Read)
      modifies this
      ensures Valid() && trace == old(trace) + [Read]
      ensures serializer.Some? ==> Now().queues.running == old(Now().queues.running) + [serializer.value]
      ensures serializer.None? <==> Now().queues.point.ToClear?
    {
      hide IsRun, Final;
      RunGrows(Init(), trace, Read);
      serializer := None;
      var index := |ms.responseSerializerCompletions|;
      if index < |ms.responseSerializers| {
        serializer := Some(ms.responseSerializers[index]);
      }
      Record(Read);
    }

    /** The clearing region of processNextResponseSerializer. */
    method ClearSerializers() returns (completions: seq<Id>)
      requires Valid() && Enabled(Now(), Clear)
      modifies this
      ensures Valid() && trace == old(trace) + [Clear] && Now().queues.point == Calling(completions)
    {
      hide IsRun, Final;
      RunGrows(Init(), trace, Clear);
      completions := ms.responseSerializerCompletions;
      ms := ms.(responseSerializers := [], responseSerializerCompletions := []);
      if CanTransition(ms.state, Finished) {
        ms := ms.(state := Finished);
      }
      ms := ms.(responseSerializerProcessingFinished := true, isFinishing := false);
      Record(Clear);
    }

    /** The guard of finish(). */
    method BeginFinish() returns (proceed: bool)
      requires Valid() && Enabled(Now(), Finish)
      modifies this`trace
      ensures Valid() && trace == old(trace) + [Finish]
      ensures proceed <==> Now().queues.point.Entered?
    {
      hide IsRun, Final;
      RunGrows(Init(), trace, Finish);
      proceed := !ms.isFinishing;
      Record(Finish);
    }

    method MarkFinishing()
      requires Valid() && Enabled(Now(), SetFinishing)
      modifies this
      ensures Valid() && trace == old(trace) + [SetFinishing]
    {
      hide IsRun, Final;
      ms := ms.(isFinishing := true);
      Record(SetFinishing);
    }

    /** The first region of responseSerializerDidComplete, for the serializer at place `i` of those
        in flight. */
    method AddCompletion(completion: Id, ghost i: nat)
      requires Valid() && Enabled(Now(), Completes(i, false)) && Now().queues.running[i] == completion
      modifies this
      ensures Valid() && trace == old(trace) + [Completes(i, false)]
    {
      hide IsRun, Final;
      ms := ms.(responseSerializerCompletions := ms.responseSerializerCompletions + [completion]);
      Record(Completes(i, false));
    }

    /** reset */
    method ResetForRetry()
      requires Valid() && Enabled(Now(), Reset)
      modifies this
      ensures Valid() && trace == old(trace) + [Reset]
    {
      hide IsRun, Final;
      ms := ms.(isFinishing := false);
      ms := ms.(responseSerializerCompletions := []);
      Record(Reset);
    }

    /** appendResponseSerializer: whether another round of processing is queued, and whether a
        block that may resume the request is. */
    method AppendResponseSerializer(id: Id) returns (reprocess: bool, mayResume: bool)
      requires Valid() && id == Now().registered
      modifies this
      ensures Valid() && trace == old(trace) + [Append]
      ensures reprocess <==> Now().queues.reprocess == old(Now().queues.reprocess) + 1
      ensures mayResume <==> Now().ms.state == Initialized || Now().ms.state == Suspended
    {
      hide IsRun, Final;
      RunGrows(Init(), trace, Append);
      ms := ms.(responseSerializers := ms.responseSerializers + [id]);
      if ms.state == Finished {
        ms := ms.(state := Resumed);
      }
      reprocess := ms.responseSerializerProcessingFinished;
      mayResume := CanTransition(ms.state, Resumed);
      Record(Append);
    }

    /** cancel: whether finish() is queued, because there is no unfinished task. */
    method CancelRequest(taskDone: bool) returns (finish: bool)
      requires Valid()
      modifies this
      ensures Valid() && trace == old(trace) + [Cancel]
      ensures finish <==> taskDone && old(ms).state != Cancelled && old(ms).state != Finished
      ensures finish ==> ms.state == Cancelled
    {
      hide IsRun, Final;
      finish := false;
      if CanTransition(ms.state, Cancelled) {
        ms := ms.(state := Cancelled);
        finish := taskDone;
      }
      Record(Cancel);
    }

    /** suspend */
    method SuspendRequest()
      requires Valid()
      modifies this
      ensures Valid() && trace == old(trace) + [Suspend]
    {
      hide IsRun, Final;
      if CanTransition(ms.state, Suspended) {
        ms := ms.(state := Suspended);
      }
      Record(Suspend);
    }

    /** resume */
    method ResumeRequest()
      requires Valid()
      modifies this
      ensures Valid() && trace == old(trace) + [Resume]
    {
      hide IsRun, Final;
      if CanTransition(ms.state, Resumed) {
        ms := ms.(state := Resumed);
      }
      Record(Resume);
    }

    /** Whatever was called on the object, if it was called cleanly, the drain is in order. */
    lemma {:induction false} TraceOrderly()
      requires Valid() && AllClean(Init(), trace)
      ensures Orderly(Now())
    {
      SerializersDrainInOrder(trace);
    }
  }
}
