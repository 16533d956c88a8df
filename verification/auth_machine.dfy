/** The interceptor as an object whose lock regions follow each other as in the runs of AuthRuns. */
module AuthMachine {
  import opened Options
  import opened AuthInterceptor
  import opened AuthRuns

  lemma {:induction false} RunGrows(s: System, steps: seq<Step>, step: Step)
    requires IsRun(s, steps) && Enabled(Final(s, steps), step)
    ensures IsRun(s, steps + [step]) && Final(s, steps + [step]) == Apply(Final(s, steps), step)
    decreases |steps|
  {
    hide Apply, Enabled;
    if steps != [] {
      RunGrows(Apply(s, steps[0]), steps[1..], step);
      assert (steps + [step])[1..] == steps[1..] + [step];
    } else {
      assert [step][1..] == [];
    }
  }

  /** The interceptor: its protected state, the blocks and calls that are under way outside the
      lock, and the retries between their two lock regions. `trace` records what happened, so that
      a valid object holds what a run leads to and everything proved of runs holds of it. */
  class Interceptor {
    const start: System
    var mutableState: MutableState
    var dispatched: seq<seq<Item>>
    var entering: seq<Op>
    var refreshesDispatched: nat
    ghost var trace: seq<Step>

    ghost predicate Valid()
      reads this
    {
      && start == Init(start.ms.credential, start.ms.refreshWindow, start.now)
      && IsRun(start, trace)
      && Holds(Final(start, trace))
    }

    ghost predicate Holds(s: System)
      reads this
    {
      s.ms == mutableState && s.blocks == dispatched && s.entering == entering && s.refreshing == refreshesDispatched
    }

    /** The interceptor and its surroundings as the trace leaves them. */
    ghost function Now(): System
      requires Valid()
      reads this
    {
      Final(start, trace)
    }

    constructor (credential: Option<Credential>, refreshWindow: Option<RefreshWindow>, now: Time)
      ensures Valid() && trace == [] && start == Init(credential, refreshWindow, now)
    {
      start := Init(credential, refreshWindow, now);
      mutableState := MutableState(credential, false, [], refreshWindow, [], []);
      dispatched, entering, refreshesDispatched, trace := [], [], 0, [];
    }

    ghost method Record(step: Step)
      requires start == Init(start.ms.credential, start.ms.refreshWindow, start.now)
      requires IsRun(start, trace) && Enabled(Final(start, trace), step) && Holds(Apply(Final(start, trace), step))
      modifies this`trace
      ensures Valid() && trace == old(trace) + [step]
    {
      RunGrows(start, trace, step);
      trace := trace + [step];
    }

    // ---------- inside the lock ----------

    /** The fold over the timestamps. */
    method IsRefreshExcessive(now: Time) returns (excessive: bool)
      ensures excessive == Excessive(mutableState, now)
    {
      if mutableState.refreshWindow.None? {
        return false;
      }
      var window := mutableState.refreshWindow.value;
      var min := now - window.interval;
      var ts := mutableState.refreshTimestamps;
      var attempts := 0;
      var i := 0;
      while i < |ts|
        invariant 0 <= i <= |ts| && attempts == CountFrom(ts[..i], min)
      {
        assert ts[..i + 1][..i] == ts[..i];
        if min <= ts[i] {
          attempts := attempts + 1;
        }
        i := i + 1;
      }
      assert ts[..i] == ts;
      return attempts >= window.maximumAttempts;
    }

    /** What a lock region leaves behind. */
    twostate predicate Left(r: Region)
      reads this
    {
      && mutableState == r.state && entering == old(entering) && trace == old(trace)
      && refreshesDispatched == old(refreshesDispatched) + (if r.started then 1 else 0)
      && dispatched == old(dispatched) + (if r.block == [] then [] else [r.block])
    }

    method Dispatch(block: seq<Item>)
      modifies this`dispatched
      ensures dispatched == old(dispatched) + (if block == [] then [] else [block])
    {
      if block != [] {
        dispatched := dispatched + [block];
      }
    }

    method HandleRefreshFailure(e: Error)
      modifies this
      ensures Left(RefreshFailure(old(mutableState), e))
    {
      var adapts, retries := mutableState.adaptOperations, mutableState.requestsToRetry;
      mutableState := mutableState.(adaptOperations := [], requestsToRetry := []);
      mutableState := mutableState.(isRefreshing := false);
      Dispatch(FailItems(adapts, retries, e));
    }

    method HandleRefreshSuccess(c: Credential)
      modifies this
      ensures Left(RefreshSuccess(old(mutableState), c))
    {
      mutableState := mutableState.(credential := Some(c));
      var adapts, retries := mutableState.adaptOperations, mutableState.requestsToRetry;
      mutableState := mutableState.(adaptOperations := [], requestsToRetry := []);
      mutableState := mutableState.(isRefreshing := false);
      Dispatch(RetryItems(adapts, retries));
    }

    method Refresh(check: Time, stamp: Time)
      modifies this
      ensures Left(StartRefresh(old(mutableState), check, stamp))
    {
      var excessive := IsRefreshExcessive(check);
      if excessive {
        HandleRefreshFailure(ExcessiveRefresh);
        return;
      }
      mutableState := mutableState.(refreshTimestamps := mutableState.refreshTimestamps + [stamp]);
      mutableState := mutableState.(isRefreshing := true);
      refreshesDispatched := refreshesDispatched + 1;
    }

    /** The lock region of adapt. A completion that is to be called right away is under way. */
    method AdaptLocked(op: Op, requiresRefresh: bool, check: Time, stamp: Time)
      modifies this
      ensures Left(AdaptRegion(old(mutableState), op, requiresRefresh, check, stamp))
    {
      if mutableState.isRefreshing {
        mutableState := mutableState.(adaptOperations := mutableState.adaptOperations + [op]);
        return;
      }
      if mutableState.credential.None? {
        Dispatch([Call(op, NotAdapted(MissingCredential))]);
        return;
      }
      if requiresRefresh {
        mutableState := mutableState.(adaptOperations := mutableState.adaptOperations + [op]);
        Refresh(check, stamp);
        return;
      }
      Dispatch([Call(op, Authenticated(mutableState.credential.value))]);
    }

    // ---------- the steps ----------

    /** adapt */
    method Adapt(op: Op, requiresRefresh: bool, check: Time, stamp: Time)
      requires Valid() && Enabled(Now(), AdaptCall(op, requiresRefresh, check, stamp))
      modifies this
      ensures Valid() && trace == old(trace) + [AdaptCall(op, requiresRefresh, check, stamp)]
    {
      hide IsRun, Final, AdaptRegion;
      AdaptLocked(op, requiresRefresh, check, stamp);
      Record(AdaptCall(op, requiresRefresh, check, stamp));
    }

    /** retry, when there is no response or the failure is not one of authentication. */
    method RefuseRetry(op: Op)
      requires Valid() && Enabled(Now(), RetryRefused(op))
      modifies this
      ensures Valid() && trace == old(trace) + [RetryRefused(op)]
    {
      hide IsRun, Final;
      Dispatch([Call(op, DoNotRetry)]);
      Record(RetryRefused(op));
    }

    /** retry, up to its second lock region. */
    method Retry(op: Op, authenticated: bool)
      requires Valid() && Enabled(Now(), RetryRead(op, authenticated))
      modifies this
      ensures Valid() && trace == old(trace) + [RetryRead(op, authenticated)]
    {
      hide IsRun, Final;
      if mutableState.credential.None? {
        Dispatch([Call(op, DoNotRetryWithError(MissingCredential))]);
      } else if !authenticated {
        Dispatch([Call(op, Outcome.Retry)]);
      } else {
        entering := entering + [op];
      }
      Record(RetryRead(op, authenticated));
    }

    /** The second lock region of retry. */
    method RetryEnqueue(k: nat, check: Time, stamp: Time)
      requires Valid() && Enabled(Now(), RetryEnqueued(k, check, stamp))
      modifies this
      ensures Valid() && trace == old(trace) + [RetryEnqueued(k, check, stamp)]
    {
      hide IsRun, Final, StartRefresh;
      var op := entering[k];
      entering := entering[..k] + entering[k + 1..];
      mutableState := mutableState.(requestsToRetry := mutableState.requestsToRetry + [op]);
      if !mutableState.isRefreshing {
        Refresh(check, stamp);
      }
      Record(RetryEnqueued(k, check, stamp));
    }

    /** The authenticator answers a refresh. */
    method Answer(answer: AuthInterceptor.Answer)
      requires Valid() && Enabled(Now(), Answered(answer))
      modifies this
      ensures Valid() && trace == old(trace) + [Answered(answer)]
    {
      hide IsRun, Final;
      refreshesDispatched := refreshesDispatched - 1;
      match answer {
        case Success(credential) => HandleRefreshSuccess(credential);
        case Failure(error) => HandleRefreshFailure(error);
      }
      Record(Answered(answer));
    }

    /** The next call or the next adapt of a dispatched block. */
    method RunNext(b: nat, requiresRefresh: bool, check: Time, stamp: Time)
      requires Valid() && Enabled(Now(), RunItem(b, requiresRefresh, check, stamp))
      modifies this
      ensures Valid() && trace == old(trace) + [RunItem(b, requiresRefresh, check, stamp)]
    {
      hide IsRun, Final, AdaptRegion;
      var item := dispatched[b][0];
      dispatched := dispatched[b := dispatched[b][1..]];
      if item.Readapt? {
        AdaptLocked(item.op, requiresRefresh, check, stamp);
      }
      Record(RunItem(b, requiresRefresh, check, stamp));
    }

    /** Whatever was called on the object: one refresh at most is unanswered, callers wait only for
        it, and every completion submitted is in exactly one place. */
    lemma {:induction false} Guarantee(op: Op)
      requires Valid()
      ensures refreshesDispatched == if mutableState.isRefreshing then 1 else 0
      ensures !mutableState.isRefreshing ==> mutableState.adaptOperations == [] && mutableState.requestsToRetry == []
      ensures QueuedOps(mutableState)[op] + BlockOps(dispatched)[op] + multiset(entering)[op] + LogOps(Now().log)[op]
           == if op in Now().submitted then 1 else 0
    {
      hide IsRun, Final;
      SingleFlightRefresh(start.ms.credential, start.ms.refreshWindow, start.now, trace, op);
    }
  }
}
