/** Every run of the interceptor: lock regions, dispatched blocks and answers of the
    authenticator, interleaved in any order. */
module AuthRuns {
  import opened Options
  import opened AuthInterceptor

  /** `refreshing` counts refreshes handed to the authenticator and not yet answered;
      `entering` holds retries between their two lock regions; `log` the completions called. */
  datatype System = System(
    ms: MutableState,
    blocks: seq<seq<Item>>,
    entering: seq<Op>,
    refreshing: nat,
    log: seq<(Op, Outcome)>,
    submitted: seq<Op>,
    now: Time)

  datatype Step =
    | SetCredential(credential: Option<Credential>)
    | AdaptCall(op: Op, requiresRefresh: bool, check: Time, stamp: Time)
    | RetryRefused(op: Op)                                         // no response, or not an authentication error
    | RetryRead(op: Op, authenticated: bool)                       // the first lock region of retry
    | RetryEnqueued(k: nat, check: Time, stamp: Time)              // the second one
    | Answered(answer: Answer)
    | RunItem(b: nat, requiresRefresh: bool, check: Time, stamp: Time)

  /** The clock does not go back, completions are submitted once, and the authenticator
      answers only what it was asked. */
  predicate Enabled(s: System, step: Step) {
    match step
    case SetCredential(_) => true
    case AdaptCall(op, _, check, stamp) => op !in s.submitted && s.now <= check <= stamp
    case RetryRefused(op) => op !in s.submitted
    case RetryRead(op, _) => op !in s.submitted
    case RetryEnqueued(k, check, stamp) => k < |s.entering| && s.now <= check <= stamp
    case Answered(_) => s.refreshing > 0
    case RunItem(b, _, check, stamp) => b < |s.blocks| && s.blocks[b] != [] && s.now <= check <= stamp
  }

  function Without<T>(s: seq<T>, k: nat): seq<T>
    requires k < |s|
  {
    s[..k] + s[k + 1..]
  }

  /** The system after a lock region. An empty block is as good as none. */
  function After(s: System, r: Region, now: Time): System {
    s.(ms := r.state, blocks := if r.block == [] then s.blocks else s.blocks + [r.block], now := now,
       refreshing := s.refreshing + (if r.started then 1 else 0))
  }

  function Apply(s: System, step: Step): System
    requires Enabled(s, step)
  {
    match step
    case SetCredential(c) => s.(ms := s.ms.(credential := c))
    case AdaptCall(op, requiresRefresh, check, stamp) =>
      After(s.(submitted := s.submitted + [op]), AdaptRegion(s.ms, op, requiresRefresh, check, stamp), stamp)
    case RetryRefused(op) =>
      s.(submitted := s.submitted + [op], blocks := s.blocks + [[Call(op, DoNotRetry)]])
    case RetryRead(op, authenticated) =>
      var s1 := s.(submitted := s.submitted + [op]);
      if s.ms.credential.None? then s1.(blocks := s.blocks + [[Call(op, DoNotRetryWithError(MissingCredential))]])
      else if !authenticated then s1.(blocks := s.blocks + [[Call(op, Retry)]])
      else s1.(entering := s.entering + [op])
    case RetryEnqueued(k, check, stamp) =>
      After(s.(entering := Without(s.entering, k)), RetryRegion(s.ms, s.entering[k], check, stamp), stamp)
    case Answered(answer) =>
      var r := if answer.Success? then RefreshSuccess(s.ms, answer.credential) else RefreshFailure(s.ms, answer.error);
      After(s.(refreshing := s.refreshing - 1), r, s.now)
    case RunItem(b, requiresRefresh, check, stamp) =>
      var item, rest := s.blocks[b][0], s.blocks[b][1..];
      var s1 := s.(blocks := s.blocks[b := rest]);
      match item
      case Call(op, outcome) => s1.(log := s.log + [(op, outcome)])
      case Readapt(op) => After(s1, AdaptRegion(s.ms, op, requiresRefresh, check, stamp), stamp)
  }

  function Init(credential: Option<Credential>, window: Option<RefreshWindow>, now: Time): System {
    System(Initial(credential, window), [], [], 0, [], [], now)
  }

  /** A run: every step is enabled where it is taken. */
  ghost predicate IsRun(s: System, steps: seq<Step>)
    decreases |steps|
  {
    steps == [] || (Enabled(s, steps[0]) && IsRun(Apply(s, steps[0]), steps[1..]))
  }

  ghost function Final(s: System, steps: seq<Step>): System
    requires IsRun(s, steps)
    decreases |steps|
  {
    if steps == [] then s else Final(Apply(s, steps[0]), steps[1..])
  }

  // ---------- where completions are ----------

  ghost function ItemOps(items: seq<Item>): multiset<Op> {
    if items == [] then multiset{} else ItemOps(items[..|items| - 1]) + multiset{items[|items| - 1].op}
  }

  ghost function BlockOps(blocks: seq<seq<Item>>): multiset<Op> {
    if blocks == [] then multiset{} else BlockOps(blocks[..|blocks| - 1]) + ItemOps(blocks[|blocks| - 1])
  }

  ghost function LogOps(log: seq<(Op, Outcome)>): multiset<Op> {
    if log == [] then multiset{} else LogOps(log[..|log| - 1]) + multiset{log[|log| - 1].0}
  }

  ghost function QueuedOps(ms: MutableState): multiset<Op> {
    multiset(ms.adaptOperations) + multiset(ms.requestsToRetry)
  }

  /** All the places a completion can be in, counted together. */
  ghost function Places(s: System): multiset<Op> {
    QueuedOps(s.ms) + BlockOps(s.blocks) + multiset(s.entering) + LogOps(s.log)
  }

  // ---------- the invariant ----------

  ghost predicate SingleFlight(s: System) {
    && (!s.ms.isRefreshing ==> s.ms.adaptOperations == [] && s.ms.requestsToRetry == [])
    && s.refreshing == if s.ms.isRefreshing then 1 else 0
  }

  ghost predicate Conserved(s: System) {
    && Places(s) == multiset(s.submitted)
    && forall op :: multiset(s.submitted)[op] <= 1
  }

  ghost predicate Sorted(ts: seq<Time>) {
    forall i, j :: 0 <= i <= j < |ts| ==> ts[i] <= ts[j]
  }

  /** Any start is more than the interval later than the one `maximumAttempts` before it. */
  ghost predicate Spaced(ts: seq<Time>, w: RefreshWindow) {
    && (ts != [] ==> w.maximumAttempts > 0)
    && forall j :: 0 <= j < |ts| && j >= w.maximumAttempts > 0 ==> ts[j - w.maximumAttempts] < ts[j] - w.interval
  }

  ghost predicate RateLimited(s: System) {
    && Sorted(s.ms.refreshTimestamps)
    && (forall i :: 0 <= i < |s.ms.refreshTimestamps| ==> s.ms.refreshTimestamps[i] <= s.now)
    && (s.ms.refreshWindow.Some? ==> Spaced(s.ms.refreshTimestamps, s.ms.refreshWindow.value))
  }

  ghost predicate Inv(s: System) {
    SingleFlight(s) && Conserved(s) && RateLimited(s)
  }

  // ---------- bookkeeping lemmas ----------

  lemma {:induction false} ItemOpsConcat(a: seq<Item>, b: seq<Item>)
    ensures ItemOps(a + b) == ItemOps(a) + ItemOps(b)
    decreases |b|
  {
    if b == [] {
      assert a + b == a;
    } else {
      assert (a + b)[..|a + b| - 1] == a + b[..|b| - 1];
      ItemOpsConcat(a, b[..|b| - 1]);
    }
  }

  lemma {:induction false} ItemOpsHead(items: seq<Item>)
    requires items != []
    ensures ItemOps(items) == multiset{items[0].op} + ItemOps(items[1..])
  {
    assert items == [items[0]] + items[1..];
    ItemOpsConcat([items[0]], items[1..]);
    assert ItemOps([items[0]]) == multiset{items[0].op};
  }

  /** The items of a flush carry exactly the queued completions. */
  lemma {:induction false} ItemOpsOf(items: seq<Item>, ops: seq<Op>)
    requires |items| == |ops| && forall i :: 0 <= i < |ops| ==> items[i].op == ops[i]
    ensures ItemOps(items) == multiset(ops)
    decreases |ops|
  {
    if ops != [] {
      var n := |ops| - 1;
      ItemOpsOf(items[..n], ops[..n]);
      assert ops == ops[..n] + [ops[n]];
      AppendOps(ops[..n], ops[n]);
    }
  }

  lemma {:induction false} FlushOps(s: MutableState, e: Error)
    ensures ItemOps(FailItems(s.adaptOperations, s.requestsToRetry, e)) == QueuedOps(s)
    ensures ItemOps(RetryItems(s.adaptOperations, s.requestsToRetry)) == QueuedOps(s)
  {
    var ops := s.adaptOperations + s.requestsToRetry;
    ItemOpsOf(FailItems(s.adaptOperations, s.requestsToRetry, e), ops);
    ItemOpsOf(RetryItems(s.adaptOperations, s.requestsToRetry), ops);
    assert multiset(ops) == QueuedOps(s);
  }

  lemma {:induction false} BlockOpsUpdate(blocks: seq<seq<Item>>, b: nat, items: seq<Item>, op: Op)
    requires b < |blocks| && ItemOps(blocks[b]) == multiset{op} + ItemOps(items)
    ensures BlockOps(blocks) == multiset{op} + BlockOps(blocks[b := items])
    decreases |blocks|
  {
    hide ItemOps;
    var n := |blocks| - 1;
    var blocks' := blocks[b := items];
    if b == n {
      assert blocks'[..n] == blocks[..n];
    } else {
      BlockOpsUpdate(blocks[..n], b, items, op);
      assert blocks'[..n] == blocks[..n][b := items];
    }
  }

  lemma {:induction false} BlockOpsAppend(blocks: seq<seq<Item>>, items: seq<Item>)
    ensures BlockOps(blocks + [items]) == BlockOps(blocks) + ItemOps(items)
  {
    hide ItemOps;
    assert (blocks + [items])[..|blocks|] == blocks;
  }

  lemma {:induction false} WithoutOps<T>(s: seq<T>, k: nat)
    requires k < |s|
    ensures multiset(s) == multiset{s[k]} + multiset(Without(s, k))
  {
    assert s == s[..k] + [s[k]] + s[k + 1..];
  }

  // ---------- lock regions keep completions ----------

  /** A region that is given `op` leaves it queued or in its block. */
  ghost predicate KeepsOps(before: MutableState, op: multiset<Op>, r: Region) {
    QueuedOps(r.state) + ItemOps(r.block) == QueuedOps(before) + op
  }

  lemma {:induction false} RefreshKeeps(s: MutableState, check: Time, stamp: Time)
    ensures KeepsOps(s, multiset{}, StartRefresh(s, check, stamp))
  {
    FlushOps(s, ExcessiveRefresh);
  }

  lemma {:induction false} AdaptKeeps(s: MutableState, op: Op, requiresRefresh: bool, check: Time, stamp: Time)
    ensures KeepsOps(s, multiset{op}, AdaptRegion(s, op, requiresRefresh, check, stamp))
  {
    hide StartRefresh;
    var s1 := s.(adaptOperations := s.adaptOperations + [op]);
    RefreshKeeps(s1, check, stamp);
    assert QueuedOps(s1) == QueuedOps(s) + multiset{op};
    OneItem(Call(op, NotAdapted(MissingCredential)));
    if s.credential.Some? { OneItem(Call(op, Authenticated(s.credential.value))); }
  }

  lemma {:induction false} OneItem(item: Item)
    ensures ItemOps([item]) == multiset{item.op}
  {
  }

  lemma {:induction false} RetryKeeps(s: MutableState, op: Op, check: Time, stamp: Time)
    ensures KeepsOps(s, multiset{op}, RetryRegion(s, op, check, stamp))
  {
    hide StartRefresh;
    var s1 := s.(requestsToRetry := s.requestsToRetry + [op]);
    RefreshKeeps(s1, check, stamp);
    assert QueuedOps(s1) == QueuedOps(s) + multiset{op};
  }

  lemma {:induction false} AnswerKeeps(s: MutableState, answer: Answer)
    ensures KeepsOps(s, multiset{}, if answer.Success? then RefreshSuccess(s, answer.credential)
        else RefreshFailure(s, answer.error))
  {
    FlushOps(s, ExcessiveRefresh);
    if answer.Failure? { FlushOps(s, answer.error); }
  }

  /** After a region given `op`, the places hold one more occurrence of it. */
  lemma {:induction false} AfterPlaces(s: System, r: Region, now: Time, op: multiset<Op>)
    requires KeepsOps(s.ms, op, r)
    ensures Places(After(s, r, now)) == Places(s) + op
  {
    hide ItemOps, BlockOps, LogOps, QueuedOps;
    BlockOpsAppend(s.blocks, r.block);
    NoItems();
    assert After(s, r, now).blocks == s.blocks || r.block != [];
    Regroup(QueuedOps(r.state), ItemOps(r.block), QueuedOps(s.ms), op, BlockOps(s.blocks), multiset(s.entering),
        LogOps(s.log));
  }

  lemma {:induction false} NoItems()
    ensures ItemOps([]) == multiset{}
  {
  }

  lemma {:induction false} Regroup(q1: multiset<Op>, i: multiset<Op>, q: multiset<Op>, op: multiset<Op>,
                                   b: multiset<Op>, e: multiset<Op>, l: multiset<Op>)
    requires q1 + i == q + op
    ensures q1 + (b + i) + e + l == (q + b + e + l) + op
  {
    forall x ensures q1[x] + i[x] == q[x] + op[x] { assert (q1 + i)[x] == (q + op)[x]; }
  }

  // ---------- conservation ----------

  lemma {:induction false} AppendOps(s: seq<Op>, op: Op)
    ensures multiset(s + [op]) == multiset(s) + multiset{op}
  {
  }

  lemma {:induction false} BlockPlaces(s: System, items: seq<Item>, op: Op)
    requires ItemOps(items) == multiset{op}
    ensures Places(s.(blocks := s.blocks + [items])) == Places(s) + multiset{op}
  {
    hide ItemOps, BlockOps, LogOps, QueuedOps;
    BlockOpsAppend(s.blocks, items);
  }

  lemma {:induction false} TakeItem(s: System, b: nat)
    requires b < |s.blocks| && s.blocks[b] != []
    ensures Places(s) == Places(s.(blocks := s.blocks[b := s.blocks[b][1..]])) + multiset{s.blocks[b][0].op}
  {
    hide ItemOps, BlockOps, LogOps, QueuedOps;
    ItemOpsHead(s.blocks[b]);
    BlockOpsUpdate(s.blocks, b, s.blocks[b][1..], s.blocks[b][0].op);
  }

  lemma {:induction false} LogPlaces(s: System, op: Op, outcome: Outcome)
    ensures Places(s.(log := s.log + [(op, outcome)])) == Places(s) + multiset{op}
  {
    hide ItemOps, BlockOps, QueuedOps;
    assert (s.log + [(op, outcome)])[..|s.log|] == s.log;
  }

  lemma {:induction false} EnterPlaces(s: System, k: nat)
    requires k < |s.entering|
    ensures Places(s) == Places(s.(entering := Without(s.entering, k))) + multiset{s.entering[k]}
  {
    hide ItemOps, BlockOps, LogOps, QueuedOps, Without;
    WithoutOps(s.entering, k);
  }

  /** A region run for a completion taken from elsewhere, or just submitted, keeps it. */
  lemma {:induction false} AfterConserves(s: System, r: Region, now: Time, op: multiset<Op>)
    requires KeepsOps(s.ms, op, r) && Places(s) + op == multiset(s.submitted)
    requires forall x :: multiset(s.submitted)[x] <= 1
    ensures Conserved(After(s, r, now))
  {
    hide Places, KeepsOps, After;
    AfterPlaces(s, r, now, op);
    AfterFields(s, r, now);
  }

  lemma {:induction false} RunItemConserves(s: System, step: Step)
    requires step.RunItem? && Enabled(s, step) && Conserved(s)
    ensures Conserved(Apply(s, step))
  {
    hide Places, KeepsOps, AdaptRegion, After;
    TakeItem(s, step.b);
    var item := s.blocks[step.b][0];
    var s1 := s.(blocks := s.blocks[step.b := s.blocks[step.b][1..]]);
    match item
    case Call(op, outcome) => LogPlaces(s1, op, outcome);
    case Readapt(op) =>
      AdaptKeeps(s.ms, op, step.requiresRefresh, step.check, step.stamp);
      AfterConserves(s1, AdaptRegion(s.ms, op, step.requiresRefresh, step.check, step.stamp), step.stamp, multiset{op});
  }

  lemma {:induction false} EnqueueConserves(s: System, step: Step)
    requires step.RetryEnqueued? && Enabled(s, step) && Conserved(s)
    ensures Conserved(Apply(s, step))
  {
    hide Places, KeepsOps, RetryRegion, After, Without;
    var op := s.entering[step.k];
    EnterPlaces(s, step.k);
    RetryKeeps(s.ms, op, step.check, step.stamp);
    AfterConserves(s.(entering := Without(s.entering, step.k)),
                   RetryRegion(s.ms, op, step.check, step.stamp), step.stamp, multiset{op});
  }

  lemma {:induction false} AnswerConserves(s: System, step: Step)
    requires step.Answered? && Enabled(s, step) && Conserved(s)
    ensures Conserved(Apply(s, step))
  {
    hide Places, KeepsOps, RefreshSuccess, RefreshFailure, After;
    var answer := step.answer;
    var r := if answer.Success? then RefreshSuccess(s.ms, answer.credential) else RefreshFailure(s.ms, answer.error);
    AnswerKeeps(s.ms, answer);
    CountPlaces(s);
    AfterConserves(s.(refreshing := s.refreshing - 1), r, s.now, multiset{});
  }

  lemma {:induction false} SubmitConserves(s: System, step: Step)
    requires step.AdaptCall? || step.RetryRefused? || step.RetryRead?
    requires Enabled(s, step) && Conserved(s)
    ensures Conserved(Apply(s, step))
  {
    hide Places, KeepsOps, AdaptRegion, After;
    var op := step.op;
    Submitted(s, op);
    var s1 := s.(submitted := s.submitted + [op]);
    match step
    case AdaptCall(_, rr, check, stamp) =>
      AdaptKeeps(s.ms, op, rr, check, stamp);
      AfterConserves(s1, AdaptRegion(s.ms, op, rr, check, stamp), stamp, multiset{op});
    case RetryRefused(_) =>
      OneItem(Call(op, DoNotRetry));
      BlockPlaces(s1, [Call(op, DoNotRetry)], op);
    case RetryRead(_, authenticated) => ReadPlaces(s, op, authenticated);
  }

  /** Submitting puts a completion into exactly one place; other steps only move it. */
  lemma {:induction false} StepConserves(s: System, step: Step)
    requires Enabled(s, step) && Conserved(s)
    ensures Conserved(Apply(s, step))
  {
    hide Places, AdaptRegion, RetryRegion, RefreshSuccess, RefreshFailure, After, Without;
    match step
    case SetCredential(c) => SamePlaces(s, c);
    case RetryEnqueued(_, _, _) => EnqueueConserves(s, step);
    case Answered(_) => AnswerConserves(s, step);
    case RunItem(_, _, _, _) => RunItemConserves(s, step);
    case _ => SubmitConserves(s, step);
  }

  lemma {:induction false} AfterFields(s: System, r: Region, now: Time)
    ensures After(s, r, now).submitted == s.submitted
  {
  }

  lemma {:induction false} SamePlaces(s: System, c: Option<Credential>)
    ensures Places(s.(ms := s.ms.(credential := c))) == Places(s)
  {
  }

  lemma {:induction false} CountPlaces(s: System)
    ensures s.refreshing > 0 ==> Places(s.(refreshing := s.refreshing - 1)) == Places(s)
  {
  }

  lemma {:induction false} Submitted(s: System, op: Op)
    requires op !in s.submitted && Conserved(s)
    ensures multiset(s.submitted + [op]) == multiset(s.submitted) + multiset{op}
    ensures forall x :: multiset(s.submitted + [op])[x] <= 1
    ensures Places(s.(submitted := s.submitted + [op])) == Places(s)
  {
    AppendOps(s.submitted, op);
    assert multiset(s.submitted)[op] == 0;
    forall x ensures multiset(s.submitted + [op])[x] <= 1 {
      assert multiset(s.submitted + [op])[x] == multiset(s.submitted)[x] + multiset{op}[x];
    }
  }

  lemma {:induction false} ReadPlaces(s: System, op: Op, authenticated: bool)
    requires op !in s.submitted
    ensures Places(Apply(s, RetryRead(op, authenticated))) == Places(s.(submitted := s.submitted + [op])) + multiset{op}
  {
    hide Places;
    var s1 := s.(submitted := s.submitted + [op]);
    OneItem(Call(op, DoNotRetryWithError(MissingCredential)));
    OneItem(Call(op, Retry));
    BlockPlaces(s1, [Call(op, DoNotRetryWithError(MissingCredential))], op);
    BlockPlaces(s1, [Call(op, Retry)], op);
    EnteringPlaces(s1, op);
  }

  lemma {:induction false} EnteringPlaces(s: System, op: Op)
    ensures Places(s.(entering := s.entering + [op])) == Places(s) + multiset{op}
  {
    hide ItemOps, BlockOps, LogOps, QueuedOps;
    AppendOps(s.entering, op);
  }

  // ---------- single flight ----------

  lemma {:induction false} StepSingleFlight(s: System, step: Step)
    requires Enabled(s, step) && SingleFlight(s)
    ensures SingleFlight(Apply(s, step))
  {
    hide Excessive, FailItems, RetryItems, Without;
  }

  // ---------- the rate ----------

  lemma {:induction false} ManyFrom(ts: seq<Time>, lo: Time, m: nat)
    requires m <= |ts| && forall i :: m <= i < |ts| ==> lo <= ts[i]
    ensures CountFrom(ts, lo) >= |ts| - m
    decreases |ts|
  {
    if m < |ts| { ManyFrom(ts[..|ts| - 1], lo, m); }
  }

  /** A start that the check let through is far enough from earlier ones. */
  lemma {:induction false} StartSpaced(ts: seq<Time>, w: RefreshWindow, check: Time, stamp: Time)
    requires Sorted(ts) && Spaced(ts, w) && check <= stamp
    requires CountFrom(ts, check - w.interval) < w.maximumAttempts
    ensures Spaced(ts + [stamp], w)
  {
    hide CountFrom;
    var n, m := |ts|, w.maximumAttempts;
    if n >= m && ts[n - m] >= stamp - w.interval {
      ManyFrom(ts, check - w.interval, n - m);
    }
  }

  lemma {:induction false} StartKeepsRate(s: System, check: Time, stamp: Time)
    requires RateLimited(s) && s.now <= check <= stamp && !Excessive(s.ms, check)
    ensures RateLimited(s.(ms := s.ms.(refreshTimestamps := s.ms.refreshTimestamps + [stamp]), now := stamp))
  {
    hide CountFrom, Spaced;
    if s.ms.refreshWindow.Some? {
      StartSpaced(s.ms.refreshTimestamps, s.ms.refreshWindow.value, check, stamp);
    }
  }

  lemma {:induction false} RegionRate(s: System, step: Step)
    requires Enabled(s, step) && RateLimited(s)
    ensures var r := Apply(s, step);
      && s.now <= r.now && r.ms.refreshWindow == s.ms.refreshWindow
      && (r.ms.refreshTimestamps == s.ms.refreshTimestamps
          || exists check, stamp :: s.now <= check <= stamp == r.now && !Excessive(s.ms, check)
               && r.ms.refreshTimestamps == s.ms.refreshTimestamps + [stamp])
  {
    hide FailItems, RetryItems, Without, RateLimited, CountFrom;
    var check, stamp := s.now, s.now;
    match step {
      case AdaptCall(op, rr, c, t) => check, stamp := c, t;
      case RetryEnqueued(k, c, t) => check, stamp := c, t;
      case RunItem(b, rr, c, t) => check, stamp := c, t;
      case _ =>
    }
    var r := Apply(s, step);
    assert r.ms.refreshTimestamps == s.ms.refreshTimestamps
      || (!Excessive(s.ms, check) && stamp == r.now && r.ms.refreshTimestamps == s.ms.refreshTimestamps + [stamp]);
  }

  lemma {:induction false} StepRate(s: System, step: Step)
    requires Enabled(s, step) && RateLimited(s)
    ensures RateLimited(Apply(s, step))
  {
    hide Excessive, Apply, Enabled;
    RegionRate(s, step);
    var r := Apply(s, step);
    if r.ms.refreshTimestamps != s.ms.refreshTimestamps {
      var check, stamp :| s.now <= check <= stamp == r.now && !Excessive(s.ms, check)
        && r.ms.refreshTimestamps == s.ms.refreshTimestamps + [stamp];
      StartKeepsRate(s, check, stamp);
    }
  }

  // ---------- every run ----------

  lemma {:induction false} RunKeepsInv(s: System, steps: seq<Step>)
    requires IsRun(s, steps) && Inv(s)
    ensures Inv(Final(s, steps)) && Final(s, steps).ms.refreshWindow == s.ms.refreshWindow
    decreases |steps|
  {
    hide SingleFlight, Conserved, RateLimited, Apply, Enabled;
    if steps != [] {
      StepSingleFlight(s, steps[0]);
      StepConserves(s, steps[0]);
      StepRate(s, steps[0]);
      RegionRate(s, steps[0]);
      RunKeepsInv(Apply(s, steps[0]), steps[1..]);
    }
  }

  lemma {:induction false} InitInv(credential: Option<Credential>, window: Option<RefreshWindow>, now: Time)
    ensures Inv(Init(credential, window, now))
  {
  }

  /** The number of starts in the closed interval from `a` to `b`. */
  ghost function CountWithin(ts: seq<Time>, a: Time, b: Time): nat {
    if ts == [] then 0
    else CountWithin(ts[..|ts| - 1], a, b) + (if a <= ts[|ts| - 1] <= b then 1 else 0)
  }

  lemma {:induction false} FewWithin(ts: seq<Time>, a: Time, b: Time, m: nat)
    requires m <= |ts| && forall i :: 0 <= i < m ==> ts[i] < a
    ensures CountWithin(ts, a, b) <= |ts| - m
    decreases |ts|
  {
    if m < |ts| {
      FewWithin(ts[..|ts| - 1], a, b, m);
    } else if ts != [] {
      FewWithin(ts[..|ts| - 1], a, b, |ts| - 1);
    }
  }

  lemma {:induction false} SpacedCount(ts: seq<Time>, w: RefreshWindow, a: Time)
    requires Sorted(ts) && Spaced(ts, w)
    ensures CountWithin(ts, a, a + w.interval) <= if w.maximumAttempts > 0 then w.maximumAttempts else 0
    decreases |ts|
  {
    if ts != [] {
      var n, m := |ts| - 1, w.maximumAttempts;
      if a <= ts[n] <= a + w.interval {
        var k := if n >= m then n - m + 1 else 0;
        if n >= m { assert ts[n - m] < ts[n] - w.interval; }
        FewWithin(ts, a, a + w.interval, k);
      } else {
        SpacedCount(ts[..n], w, a);
      }
    }
  }

  /** Over every run, no closed interval of the window's length holds more refresh starts than
      the window allows. */
  lemma {:induction false} RefreshRateBound(credential: Option<Credential>, w: RefreshWindow, now: Time,
      steps: seq<Step>, a: Time)
    requires IsRun(Init(credential, Some(w), now), steps)
    ensures CountWithin(Final(Init(credential, Some(w), now), steps).ms.refreshTimestamps, a, a + w.interval)
         <= if w.maximumAttempts > 0 then w.maximumAttempts else 0
  {
    InitInv(credential, Some(w), now);
    RunKeepsInv(Init(credential, Some(w), now), steps);
    SpacedCount(Final(Init(credential, Some(w), now), steps).ms.refreshTimestamps, w, a);
  }

  /** Over every run: the queues are empty unless a refresh is on its way, exactly one refresh
      is then unanswered, and every submitted completion is in exactly one place. */
  lemma {:induction false} SingleFlightRefresh(credential: Option<Credential>, window: Option<RefreshWindow>,
      now: Time, steps: seq<Step>, op: Op)
    requires IsRun(Init(credential, window, now), steps)
    ensures var s := Final(Init(credential, window, now), steps);
      && (s.ms.isRefreshing <==> s.refreshing == 1) && s.refreshing <= 1
      && (s.ms.adaptOperations != [] || s.ms.requestsToRetry != [] ==> s.ms.isRefreshing)
      && (op in s.submitted ==>
            QueuedOps(s.ms)[op] + BlockOps(s.blocks)[op] + multiset(s.entering)[op] + LogOps(s.log)[op] == 1)
      && (op !in s.submitted ==>
            QueuedOps(s.ms)[op] + BlockOps(s.blocks)[op] + multiset(s.entering)[op] + LogOps(s.log)[op] == 0)
  {
    hide ItemOps, BlockOps, LogOps, QueuedOps, IsRun, Final;
    InitInv(credential, window, now);
    RunKeepsInv(Init(credential, window, now), steps);
    var s := Final(Init(credential, window, now), steps);
    assert Places(s)[op] == multiset(s.submitted)[op];
  }

  /** Once nothing is queued, entering or dispatched, every completion was called exactly once. */
  lemma {:induction false} EventuallyAllCalled(credential: Option<Credential>, window: Option<RefreshWindow>,
      now: Time, steps: seq<Step>)
    requires IsRun(Init(credential, window, now), steps)
    requires var s := Final(Init(credential, window, now), steps);
      s.refreshing == 0 && s.entering == [] && forall b :: 0 <= b < |s.blocks| ==> s.blocks[b] == []
    ensures var s := Final(Init(credential, window, now), steps); LogOps(s.log) == multiset(s.submitted)
  {
    hide LogOps, IsRun, Final, ItemOps;
    InitInv(credential, window, now);
    RunKeepsInv(Init(credential, window, now), steps);
    var s := Final(Init(credential, window, now), steps);
    EmptyBlocks(s.blocks);
  }

  lemma {:induction false} EmptyBlocks(blocks: seq<seq<Item>>)
    requires forall b :: 0 <= b < |blocks| ==> blocks[b] == []
    ensures BlockOps(blocks) == multiset{}
    decreases |blocks|
  {
    if blocks != [] { EmptyBlocks(blocks[..|blocks| - 1]); }
  }
}
