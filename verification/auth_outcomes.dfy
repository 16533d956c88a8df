/** What completions are called with and why refreshes start, step by step and over every run.
    Everything here is said of the steps alone. */
module AuthOutcomes {
  import opened Options
  import opened AuthInterceptor
  import opened AuthRuns

  // ---------- the steps that adapt ----------

  /** The step adapts `op`, for the first time or again, and reads the clock at `check`. */
  predicate Adapts(s: System, step: Step, op: Op, requiresRefresh: bool, check: Time)
    requires Enabled(s, step)
  {
    match step
    case AdaptCall(o, rr, c, _) => o == op && rr == requiresRefresh && c == check
    case RunItem(b, rr, c, _) => s.blocks[b][0] == Readapt(op) && rr == requiresRefresh && c == check
    case _ => false
  }

  /** The blocks without the item the step runs. */
  function OtherBlocks(s: System, step: Step): seq<seq<Item>>
    requires Enabled(s, step)
  {
    if step.RunItem? then s.blocks[step.b := s.blocks[step.b][1..]] else s.blocks
  }

  /** The refreshes started within the window before `now`. */
  ghost function Recent(ts: seq<Time>, since: Time): set<nat> {
    set i: nat | i < |ts| && since <= ts[i]
  }

  /** The window leaves room for one more refresh. */
  ghost predicate Room(ms: MutableState, now: Time) {
    match ms.refreshWindow
    case None => true
    case Some(w) => |Recent(ms.refreshTimestamps, now - w.interval)| < w.maximumAttempts
  }

  lemma {:induction false} CountIsRecent(ts: seq<Time>, since: Time)
    ensures CountFrom(ts, since) == |Recent(ts, since)|
    decreases |ts|
  {
    if ts != [] {
      var n := |ts| - 1;
      CountIsRecent(ts[..n], since);
      var rest := Recent(ts[..n], since);
      assert Recent(ts, since) == if since <= ts[n] then rest + {n} else rest;
    }
  }

  lemma {:induction false} RoomIsNotExcessive(ms: MutableState, now: Time)
    ensures Room(ms, now) <==> !Excessive(ms, now)
  {
    if ms.refreshWindow.Some? { CountIsRecent(ms.refreshTimestamps, now - ms.refreshWindow.value.interval); }
  }

  /** A block of failures: one item for each waiting completion, in their order. */
  ghost predicate FailsAll(block: seq<Item>, adapts: seq<Op>, retries: seq<Op>, e: Error) {
    && |block| == |adapts| + |retries|
    && (forall i :: 0 <= i < |adapts| ==> block[i] == Call(adapts[i], NotAdapted(e)))
    && (forall i :: 0 <= i < |retries| ==> block[|adapts| + i] == Call(retries[i], DoNotRetryWithError(e)))
  }

  /** A block that lets every waiting request go on. */
  ghost predicate ReleasesAll(block: seq<Item>, adapts: seq<Op>, retries: seq<Op>) {
    && |block| == |adapts| + |retries|
    && (forall i :: 0 <= i < |adapts| ==> block[i] == Readapt(adapts[i]))
    && (forall i :: 0 <= i < |retries| ==> block[|adapts| + i] == Call(retries[i], Outcome.Retry))
  }

  /** `after` is `before` with one more block, if it holds anything. */
  ghost predicate Adds(before: seq<seq<Item>>, after: seq<seq<Item>>, block: seq<Item>) {
    after == if block == [] then before else before + [block]
  }

  /** Nobody waits and nothing is being refreshed; the rest of the state is as before. */
  predicate NobodyWaits(before: MutableState, after: MutableState, credential: Option<Credential>) {
    && after.adaptOperations == [] && after.requestsToRetry == [] && !after.isRefreshing
    && after.credential == credential
    && after.refreshTimestamps == before.refreshTimestamps && after.refreshWindow == before.refreshWindow
  }

  /** A request that comes while a refresh is under way waits for it, whatever its credential. */
  lemma {:induction false} AdaptWaits(s: System, step: Step, op: Op, requiresRefresh: bool, check: Time)
    requires Enabled(s, step) && Adapts(s, step, op, requiresRefresh, check) && s.ms.isRefreshing
    ensures var r := Apply(s, step);
      && r.ms == s.ms.(adaptOperations := s.ms.adaptOperations + [op])
      && r.blocks == OtherBlocks(s, step) && r.refreshing == s.refreshing && r.log == s.log
  {
  }

  /** Without a refresh and with a credential that is still good, the step hands out exactly that
      credential; without any credential, exactly that error. Nothing else changes. */
  lemma {:induction false} AdaptAnswers(s: System, step: Step, op: Op, requiresRefresh: bool, check: Time)
    requires Enabled(s, step) && Adapts(s, step, op, requiresRefresh, check) && !s.ms.isRefreshing
    requires s.ms.credential.None? || !requiresRefresh
    ensures var r := Apply(s, step);
      && r.ms == s.ms && r.refreshing == s.refreshing && r.log == s.log
      && r.blocks == OtherBlocks(s, step) + [[Call(op,
           if s.ms.credential.Some? then Authenticated(s.ms.credential.value) else NotAdapted(MissingCredential))]]
  {
  }

  /** A credential that has to be refreshed starts a refresh, with the request waiting, as long as
      the window has room; otherwise the request and all who wait fail. */
  lemma {:induction false} AdaptRefreshes(s: System, step: Step, op: Op, check: Time)
    requires Enabled(s, step) && Adapts(s, step, op, true, check) && !s.ms.isRefreshing && s.ms.credential.Some?
    ensures var r := Apply(s, step);
      if Room(s.ms, check) then
        && r.refreshing == s.refreshing + 1 && r.blocks == OtherBlocks(s, step) && r.log == s.log
        && r.ms == s.ms.(adaptOperations := s.ms.adaptOperations + [op], isRefreshing := true,
                         refreshTimestamps := s.ms.refreshTimestamps + [r.now])
      else
        && r.refreshing == s.refreshing && r.log == s.log && NobodyWaits(s.ms, r.ms, s.ms.credential)
        && exists block :: FailsAll(block, s.ms.adaptOperations + [op], s.ms.requestsToRetry, ExcessiveRefresh)
                           && Adds(OtherBlocks(s, step), r.blocks, block)
  {
    hide CountFrom;
    RoomIsNotExcessive(s.ms, check);
    assert Excessive(s.ms.(adaptOperations := s.ms.adaptOperations + [op]), check) == Excessive(s.ms, check);
    if !Room(s.ms, check) {
      var block := FailItems(s.ms.adaptOperations + [op], s.ms.requestsToRetry, ExcessiveRefresh);
      assert FailsAll(block, s.ms.adaptOperations + [op], s.ms.requestsToRetry, ExcessiveRefresh);
    }
  }

  // ---------- the steps that retry ----------

  /** The first lock region of retry, and the refusals before it. */
  lemma {:induction false} RetryAnswers(s: System, step: Step)
    requires Enabled(s, step) && (step.RetryRefused? || step.RetryRead?)
    ensures var r := Apply(s, step);
      var op := step.op;
      && r.ms == s.ms && r.refreshing == s.refreshing && r.log == s.log
      && (step.RetryRefused? ==> r.blocks == s.blocks + [[Call(op, DoNotRetry)]] && r.entering == s.entering)
      && (step.RetryRead? && s.ms.credential.None? ==>
            r.blocks == s.blocks + [[Call(op, DoNotRetryWithError(MissingCredential))]] && r.entering == s.entering)
      && (step.RetryRead? && s.ms.credential.Some? && !step.authenticated ==>
            r.blocks == s.blocks + [[Call(op, Outcome.Retry)]] && r.entering == s.entering)
      && (step.RetryRead? && s.ms.credential.Some? && step.authenticated ==>
            r.blocks == s.blocks && r.entering == s.entering + [op])
  {
  }

  /** The second lock region: the request waits for the refresh that is under way, or for the one it
      starts, or fails with all who wait. */
  lemma {:induction false} RetryRefreshes(s: System, step: Step)
    requires Enabled(s, step) && step.RetryEnqueued?
    ensures var r := Apply(s, step);
      var waiting := s.ms.requestsToRetry + [s.entering[step.k]];
      && r.log == s.log
      && (s.ms.isRefreshing ==>
            r.ms == s.ms.(requestsToRetry := waiting) && r.refreshing == s.refreshing && r.blocks == s.blocks)
      && (!s.ms.isRefreshing && Room(s.ms, step.check) ==>
            && r.refreshing == s.refreshing + 1 && r.blocks == s.blocks
            && r.ms == s.ms.(requestsToRetry := waiting, isRefreshing := true,
                             refreshTimestamps := s.ms.refreshTimestamps + [step.stamp]))
      && (!s.ms.isRefreshing && !Room(s.ms, step.check) ==>
            && r.refreshing == s.refreshing && NobodyWaits(s.ms, r.ms, s.ms.credential)
            && exists block :: FailsAll(block, s.ms.adaptOperations, waiting, ExcessiveRefresh)
                               && Adds(s.blocks, r.blocks, block))
  {
    hide CountFrom;
    RoomIsNotExcessive(s.ms, step.check);
    var waiting := s.ms.requestsToRetry + [s.entering[step.k]];
    assert Excessive(s.ms.(requestsToRetry := waiting), step.check) == Excessive(s.ms, step.check);
    if !s.ms.isRefreshing && !Room(s.ms, step.check) {
      var block := FailItems(s.ms.adaptOperations, waiting, ExcessiveRefresh);
      assert FailsAll(block, s.ms.adaptOperations, waiting, ExcessiveRefresh);
    }
  }

  // ---------- the answer ----------

  /** A refresh that succeeded stores the new credential, lets the waiting requests adapt again and
      the others retry; one that failed gives each of them its error and keeps the credential. */
  lemma {:induction false} AnswerReleases(s: System, answer: Answer)
    requires Enabled(s, Answered(answer))
    ensures var r := Apply(s, Answered(answer));
      && r.refreshing == s.refreshing - 1 && r.log == s.log
      && NobodyWaits(s.ms, r.ms, if answer.Success? then Some(answer.credential) else s.ms.credential)
      && exists block ::
           && (if answer.Success? then ReleasesAll(block, s.ms.adaptOperations, s.ms.requestsToRetry)
               else FailsAll(block, s.ms.adaptOperations, s.ms.requestsToRetry, answer.error))
           && Adds(s.blocks, r.blocks, block)
  {
    if answer.Success? {
      var block := RetryItems(s.ms.adaptOperations, s.ms.requestsToRetry);
      assert ReleasesAll(block, s.ms.adaptOperations, s.ms.requestsToRetry);
      assert Adds(s.blocks, Apply(s, Answered(answer)).blocks, block);
    } else {
      var block := FailItems(s.ms.adaptOperations, s.ms.requestsToRetry, answer.error);
      assert FailsAll(block, s.ms.adaptOperations, s.ms.requestsToRetry, answer.error);
      assert Adds(s.blocks, Apply(s, Answered(answer)).blocks, block);
    }
  }

  // ---------- why refreshes start ----------

  /** The step asks for a refresh that is not under way: an adapt that found its credential in need
      of one, or a retry that found the credential it had used still in place. */
  predicate AsksForRefresh(s: System, step: Step)
    requires Enabled(s, step)
  {
    && !s.ms.isRefreshing
    && match step
       case AdaptCall(_, rr, _, _) => rr && s.ms.credential.Some?
       case RunItem(b, rr, _, _) => s.blocks[b][0].Readapt? && rr && s.ms.credential.Some?
       case RetryEnqueued(_, _, _) => true
       case _ => false
  }

  function ClockRead(step: Step): Time {
    match step
    case AdaptCall(_, _, check, _) => check
    case RunItem(_, _, check, _) => check
    case RetryEnqueued(_, check, _) => check
    case _ => 0.0
  }

  /** A step starts a refresh exactly if it asks for one and the window has room. */
  lemma {:induction false} RefreshStarts(s: System, step: Step)
    requires Enabled(s, step)
    ensures Apply(s, step).refreshing > s.refreshing <==> AsksForRefresh(s, step) && Room(s.ms, ClockRead(step))
  {
    hide Excessive, Room, CountFrom, FailItems, RetryItems, Without;
    RoomIsNotExcessive(s.ms, ClockRead(step));
    match step
    case AdaptCall(op, _, check, _) => SameRoom(s.ms, op, check);
    case RunItem(b, _, check, _) => SameRoom(s.ms, s.blocks[b][0].op, check);
    case RetryEnqueued(k, check, _) => SameRoom(s.ms, s.entering[k], check);
    case _ =>
  }

  lemma {:induction false} SameRoom(ms: MutableState, op: Op, now: Time)
    ensures Excessive(ms.(adaptOperations := ms.adaptOperations + [op]), now) == Excessive(ms, now)
    ensures Excessive(ms.(requestsToRetry := ms.requestsToRetry + [op]), now) == Excessive(ms, now)
  {
  }

  // ---------- why completions are called with what they are called with ----------

  /** The completion is called with this, or about to be. */
  ghost predicate Told(s: System, op: Op, outcome: Outcome) {
    (op, outcome) in s.log || exists b :: 0 <= b < |s.blocks| && Call(op, outcome) in s.blocks[b]
  }

  /** `op` is among those the step would make wait. */
  predicate Waits(s: System, step: Step, op: Op)
    requires Enabled(s, step)
  {
    || op in s.ms.adaptOperations || op in s.ms.requestsToRetry
    || (step.AdaptCall? && step.op == op)
    || (step.RunItem? && s.blocks[step.b][0] == Readapt(op))
    || (step.RetryEnqueued? && s.entering[step.k] == op)
  }

  /** The step is a reason to tell `op` the outcome. */
  ghost predicate Reason(s: System, step: Step, op: Op, outcome: Outcome)
    requires Enabled(s, step)
  {
    match outcome
    case Authenticated(c) =>
      !s.ms.isRefreshing && s.ms.credential == Some(c)
      && exists check :: Adapts(s, step, op, false, check)
    case NotAdapted(e) =>
      || (e == MissingCredential && !s.ms.isRefreshing && s.ms.credential.None?
          && exists rr, check :: Adapts(s, step, op, rr, check))
      || Denied(s, step, op, e)
    case Retry =>
      || (step == RetryRead(op, false) && s.ms.credential.Some?)
      || (step.Answered? && step.answer.Success? && op in s.ms.requestsToRetry)
    case DoNotRetry => step == RetryRefused(op)
    case DoNotRetryWithError(e) =>
      || (e == MissingCredential && step.RetryRead? && step.op == op && s.ms.credential.None?)
      || Denied(s, step, op, e)
  }

  /** `op` waits and the refresh fails, or is refused because the window is full. */
  ghost predicate Denied(s: System, step: Step, op: Op, e: Error)
    requires Enabled(s, step)
  {
    && Waits(s, step, op)
    && (step == Answered(Failure(e))
        || (e == ExcessiveRefresh && AsksForRefresh(s, step) && !Room(s.ms, ClockRead(step))))
  }

  lemma {:induction false} ToldInBlock(s: System, r: System, block: seq<Item>, op: Op, outcome: Outcome)
    requires r.log == s.log && Adds(s.blocks, r.blocks, block) && Told(r, op, outcome)
    ensures Told(s, op, outcome) || Call(op, outcome) in block
  {
  }

  /** Taking an item out of its block leaves less to be told. */
  lemma {:induction false} ToldBefore(s: System, step: Step, op: Op, outcome: Outcome)
    requires Enabled(s, step) && Told(s.(blocks := OtherBlocks(s, step)), op, outcome)
    ensures Told(s, op, outcome)
  {
    if (op, outcome) !in s.log {
      var b :| 0 <= b < |s.blocks| && Call(op, outcome) in OtherBlocks(s, step)[b];
      assert Call(op, outcome) in s.blocks[b];
    }
  }

  lemma {:induction false} FailedItem(block: seq<Item>, adapts: seq<Op>, retries: seq<Op>, e: Error, op: Op,
                                      outcome: Outcome)
    requires FailsAll(block, adapts, retries, e) && Call(op, outcome) in block
    ensures (outcome == NotAdapted(e) && op in adapts) || (outcome == DoNotRetryWithError(e) && op in retries)
  {
    var i :| 0 <= i < |block| && block[i] == Call(op, outcome);
    if i >= |adapts| {
      var j := i - |adapts|;
      assert block[|adapts| + j] == Call(retries[j], DoNotRetryWithError(e));
    }
  }

  lemma {:induction false} ReleasedItem(block: seq<Item>, adapts: seq<Op>, retries: seq<Op>, op: Op, outcome: Outcome)
    requires ReleasesAll(block, adapts, retries) && Call(op, outcome) in block
    ensures outcome == Outcome.Retry && op in retries
  {
    var i :| 0 <= i < |block| && block[i] == Call(op, outcome);
    if i >= |adapts| {
      var j := i - |adapts|;
      assert block[|adapts| + j] == Call(retries[j], Outcome.Retry);
    }
  }

  lemma {:induction false} AdaptReason(s: System, step: Step, op: Op, outcome: Outcome)
    requires Enabled(s, step) && (step.AdaptCall? || (step.RunItem? && s.blocks[step.b][0].Readapt?))
    requires Told(Apply(s, step), op, outcome)
    ensures Told(s, op, outcome) || Reason(s, step, op, outcome)
  {
    hide Apply, Told, Room, FailsAll;
    var own := if step.AdaptCall? then step.op else s.blocks[step.b][0].op;
    var rr, check := step.requiresRefresh, step.check;
    var r, base := Apply(s, step), s.(blocks := OtherBlocks(s, step));
    assert Adapts(s, step, own, rr, check);
    if s.ms.isRefreshing {
      AdaptWaits(s, step, own, rr, check);
      assert Adds(base.blocks, r.blocks, []);
      ToldInBlock(base, r, [], op, outcome);
    } else if s.ms.credential.None? || !rr {
      AdaptAnswers(s, step, own, rr, check);
      var block := [Call(own,
        if s.ms.credential.Some? then Authenticated(s.ms.credential.value) else NotAdapted(MissingCredential))];
      assert Adds(base.blocks, r.blocks, block);
      ToldInBlock(base, r, block, op, outcome);
    } else {
      AdaptRefreshes(s, step, own, check);
      if Room(s.ms, check) {
        assert Adds(base.blocks, r.blocks, []);
        ToldInBlock(base, r, [], op, outcome);
      } else {
        var block :| FailsAll(block, s.ms.adaptOperations + [own], s.ms.requestsToRetry, ExcessiveRefresh)
                     && Adds(base.blocks, r.blocks, block);
        ToldInBlock(base, r, block, op, outcome);
        if Call(op, outcome) in block {
          FailedItem(block, s.ms.adaptOperations + [own], s.ms.requestsToRetry, ExcessiveRefresh, op, outcome);
        }
      }
    }
    if Told(base, op, outcome) { ToldBefore(s, step, op, outcome); }
  }

  lemma {:induction false} RetryReason(s: System, step: Step, op: Op, outcome: Outcome)
    requires Enabled(s, step) && (step.RetryRefused? || step.RetryRead? || step.RetryEnqueued?)
    requires Told(Apply(s, step), op, outcome)
    ensures Told(s, op, outcome) || Reason(s, step, op, outcome)
  {
    hide Apply, Told, Room, FailsAll;
    var r := Apply(s, step);
    if step.RetryEnqueued? {
      RetryRefreshes(s, step);
      var waiting := s.ms.requestsToRetry + [s.entering[step.k]];
      if s.ms.isRefreshing || Room(s.ms, step.check) {
        assert Adds(s.blocks, r.blocks, []);
        ToldInBlock(s, r, [], op, outcome);
      } else {
        var block :| FailsAll(block, s.ms.adaptOperations, waiting, ExcessiveRefresh) && Adds(s.blocks, r.blocks,
            block);
        ToldInBlock(s, r, block, op, outcome);
        if Call(op, outcome) in block {
          FailedItem(block, s.ms.adaptOperations, waiting, ExcessiveRefresh, op, outcome);
        }
      }
    } else {
      RetryAnswers(s, step);
      var block := if r.blocks == s.blocks then [] else r.blocks[|s.blocks|];
      assert Adds(s.blocks, r.blocks, block);
      ToldInBlock(s, r, block, op, outcome);
    }
  }

  lemma {:induction false} AnswerReason(s: System, answer: Answer, op: Op, outcome: Outcome)
    requires Enabled(s, Answered(answer)) && Told(Apply(s, Answered(answer)), op, outcome)
    ensures Told(s, op, outcome) || Reason(s, Answered(answer), op, outcome)
  {
    hide Apply, Told, Room, FailsAll, ReleasesAll;
    var r := Apply(s, Answered(answer));
    AnswerReleases(s, answer);
    var adapts, retries := s.ms.adaptOperations, s.ms.requestsToRetry;
    var block :| (if answer.Success? then ReleasesAll(block, adapts, retries)
                  else FailsAll(block, adapts, retries, answer.error)) && Adds(s.blocks, r.blocks, block);
    ToldInBlock(s, r, block, op, outcome);
    if Call(op, outcome) in block {
      if answer.Success? {
        ReleasedItem(block, adapts, retries, op, outcome);
      } else {
        FailedItem(block, adapts, retries, answer.error, op, outcome);
      }
    }
  }

  /** A step tells a completion nothing without a reason. */
  lemma {:induction false} StepReason(s: System, step: Step, op: Op, outcome: Outcome)
    requires Enabled(s, step) && Told(Apply(s, step), op, outcome)
    ensures Told(s, op, outcome) || Reason(s, step, op, outcome)
  {
    hide Reason;
    match step
    case SetCredential(c) => SameTold(s, c, op, outcome);
    case AdaptCall(_, _, _, _) => AdaptReason(s, step, op, outcome);
    case Answered(answer) => AnswerReason(s, answer, op, outcome);
    case RunItem(b, _, _, _) =>
      if s.blocks[b][0].Readapt? {
        AdaptReason(s, step, op, outcome);
      } else {
        CallMoves(s, step, op, outcome);
      }
    case _ => RetryReason(s, step, op, outcome);
  }

  lemma {:induction false} SameTold(s: System, c: Option<Credential>, op: Op, outcome: Outcome)
    requires Told(Apply(s, SetCredential(c)), op, outcome)
    ensures Told(s, op, outcome)
  {
  }

  /** A call that is run is called with what its block says. */
  lemma {:induction false} CallMoves(s: System, step: Step, op: Op, outcome: Outcome)
    requires Enabled(s, step) && step.RunItem? && s.blocks[step.b][0].Call?
    ensures var item, r := s.blocks[step.b][0], Apply(s, step);
      r.log == s.log + [(item.op, item.outcome)] && r.ms == s.ms && r.blocks == OtherBlocks(s, step)
    ensures Told(Apply(s, step), op, outcome) ==> Told(s, op, outcome)
  {
    if Told(Apply(s, step), op, outcome) && (op, outcome) !in Apply(s, step).log {
      ToldBefore(s, step, op, outcome);
    }
  }

  /** Some step of the run is a reason to tell `op` the outcome. */
  ghost predicate HasReason(s: System, steps: seq<Step>, op: Op, outcome: Outcome)
    requires IsRun(s, steps)
    decreases |steps|
  {
    steps != []
    && (Reason(s, steps[0], op, outcome) || HasReason(Apply(s, steps[0]), steps[1..], op, outcome))
  }

  lemma {:induction false} RunReason(s: System, steps: seq<Step>, op: Op, outcome: Outcome)
    requires IsRun(s, steps) && Told(Final(s, steps), op, outcome)
    ensures Told(s, op, outcome) || HasReason(s, steps, op, outcome)
    decreases |steps|
  {
    hide Apply, Enabled, Told, Reason;
    if steps != [] {
      RunReason(Apply(s, steps[0]), steps[1..], op, outcome);
      if Told(Apply(s, steps[0]), op, outcome) { StepReason(s, steps[0], op, outcome); }
    }
  }

  /** Over every run, whatever a completion is called with, some step was the reason: above all, a
      credential is handed out only by a step that held just that credential, with no refresh under
      way and none required. */
  lemma {:induction false} EveryCallHasReason(credential: Option<Credential>, window: Option<RefreshWindow>, now: Time,
                                              steps: seq<Step>, op: Op, outcome: Outcome)
    requires IsRun(Init(credential, window, now), steps)
    requires Told(Final(Init(credential, window, now), steps), op, outcome)
    ensures HasReason(Init(credential, window, now), steps, op, outcome)
  {
    hide IsRun, Final, HasReason;
    RunReason(Init(credential, window, now), steps, op, outcome);
  }
}
