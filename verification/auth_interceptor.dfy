/** Alamofire's AuthenticationInterceptor: one refresh at a time, callers queued behind it,
    and a limit on refreshes within a time window. */
module AuthInterceptor {

  import opened Options

  type Op = nat       // a submitted completion, of an adapt or of a retry
  type Time = real    // systemUptime and TimeInterval

  datatype Credential = Credential(id: nat)
  datatype Error = MissingCredential | ExcessiveRefresh | AuthenticatorError(code: nat)
  datatype Answer = Success(credential: Credential) | Failure(error: Error)

  /** What a completion is called with. */
  datatype Outcome =
    | Authenticated(credential: Credential)
    | NotAdapted(error: Error)
    | Retry
    | DoNotRetry
    | DoNotRetryWithError(error: Error)

  datatype RefreshWindow = RefreshWindow(interval: Time, maximumAttempts: int)

  datatype MutableState = MutableState(
    credential: Option<Credential>,
    isRefreshing: bool,
    refreshTimestamps: seq<Time>,
    refreshWindow: Option<RefreshWindow>,
    adaptOperations: seq<Op>,
    requestsToRetry: seq<Op>)

  /** One element of a dispatched block: a completion to call, or an adapt to run again. */
  datatype Item = Call(op: Op, outcome: Outcome) | Readapt(op: Op)

  // ---------- inside the lock ----------

  /** The number of refreshes started at `lo` or later. */
  function CountFrom(ts: seq<Time>, lo: Time): nat {
    if ts == [] then 0 else CountFrom(ts[..|ts| - 1], lo) + (if lo <= ts[|ts| - 1] then 1 else 0)
  }

  /** isRefreshExcessive */
  predicate Excessive(s: MutableState, now: Time) {
    s.refreshWindow.Some?
    && CountFrom(s.refreshTimestamps, now - s.refreshWindow.value.interval) >= s.refreshWindow.value.maximumAttempts
  }

  /** The effect of a lock region: the state it leaves, the block it dispatches, and whether
      it started a refresh. */
  datatype Region = Region(state: MutableState, block: seq<Item>, started: bool)

  function FailItems(adapts: seq<Op>, retries: seq<Op>, e: Error): seq<Item> {
    seq(|adapts|, i requires 0 <= i < |adapts| => Call(adapts[i], NotAdapted(e)))
    + seq(|retries|, i requires 0 <= i < |retries| => Call(retries[i], DoNotRetryWithError(e)))
  }

  function RetryItems(adapts: seq<Op>, retries: seq<Op>): seq<Item> {
    seq(|adapts|, i requires 0 <= i < |adapts| => Readapt(adapts[i]))
    + seq(|retries|, i requires 0 <= i < |retries| => Call(retries[i], Retry))
  }

  function Flushed(s: MutableState): MutableState {
    s.(adaptOperations := [], requestsToRetry := [], isRefreshing := false)
  }

  /** handleRefreshFailure */
  function RefreshFailure(s: MutableState, e: Error): Region {
    Region(Flushed(s), FailItems(s.adaptOperations, s.requestsToRetry, e), false)
  }

  /** handleRefreshSuccess */
  function RefreshSuccess(s: MutableState, c: Credential): Region {
    Region(Flushed(s.(credential := Some(c))), RetryItems(s.adaptOperations, s.requestsToRetry), false)
  }

  /** refresh. The clock is read twice: for the check, then for the timestamp. */
  function StartRefresh(s: MutableState, check: Time, stamp: Time): Region {
    if Excessive(s, check) then RefreshFailure(s, ExcessiveRefresh)
    else Region(s.(refreshTimestamps := s.refreshTimestamps + [stamp], isRefreshing := true), [], true)
  }

  /** The lock region of adapt. A completion that is to be called right away is its block. */
  function AdaptRegion(s: MutableState, op: Op, requiresRefresh: bool, check: Time, stamp: Time): Region {
    if s.isRefreshing then Region(s.(adaptOperations := s.adaptOperations + [op]), [], false)
    else if s.credential.None? then Region(s, [Call(op, NotAdapted(MissingCredential))], false)
    else if requiresRefresh then StartRefresh(s.(adaptOperations := s.adaptOperations + [op]), check, stamp)
    else Region(s, [Call(op, Authenticated(s.credential.value))], false)
  }

  /** The second lock region of retry. */
  function RetryRegion(s: MutableState, op: Op, check: Time, stamp: Time): Region {
    var s1 := s.(requestsToRetry := s.requestsToRetry + [op]);
    if s.isRefreshing then Region(s1, [], false) else StartRefresh(s1, check, stamp)
  }

  function Initial(credential: Option<Credential>, refreshWindow: Option<RefreshWindow>): MutableState {
    MutableState(credential, false, [], refreshWindow, [], [])
  }
}
