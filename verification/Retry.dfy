/**
 Bounded retries of control-plane requests
 (crates/sakala-agent-core/src/support/retry.rs and the loops `report` and
 `send_with_retry` of crates/sakala-agent-core/src/api/client.rs).
 */
module Retry {
  import opened Wrappers

  /** The largest `std::time::Duration`, in nanoseconds. */
  const DURATION_MAX: nat := 0x1_0000_0000_0000_0000 * 1_000_000_000 - 1

  type Duration = d: nat | d <= DURATION_MAX

  const U32_MAX: nat := 0xFFFF_FFFF

  datatype RetryPolicy = RetryPolicy(maxAttempts: nat, baseDelay: Duration, maxDelay: Duration)

  function Min(a: nat, b: nat): (m: nat) {
    if a <= b then a else b
  }

  function PowerOfTwo(n: nat): (p: nat)
    ensures p >= 1
  {
    if n == 0 then 1 else 2 * PowerOfTwo(n - 1)
  }

  function Times(a: nat, b: nat): (p: nat) {
    MultiplyGrows(a, 0, b);
    a * b
  }

  lemma MultiplyGrows(base: nat, a: nat, b: nat)
    requires a <= b
    ensures 0 <= base * a <= base * b
  {
  }

  /** `exponential_delay`, with the saturations of `u32::saturating_pow` and `Duration::saturating_mul`. */
  function ExponentialDelay(attempt: nat, base: Duration, maximum: Duration): (d: Duration) {
    var multiplier := Min(PowerOfTwo(Min(attempt, 16)), U32_MAX);
    Min(Min(Times(base, multiplier), DURATION_MAX), maximum)
  }

  lemma {:induction false} PowerGrows(m: nat, n: nat)
    requires m <= n
    ensures PowerOfTwo(m) <= PowerOfTwo(n)
  {
    if m < n {
      PowerGrows(m, n - 1);
    }
  }

  lemma SixteenthPower()
    ensures PowerOfTwo(16) == 65536
  {
    assert PowerOfTwo(4) == 16;
    assert PowerOfTwo(8) == 256;
    assert PowerOfTwo(12) == 4096;
  }

  /** Neither saturation shows: the delay is the doubled base, at most 65536-fold, capped by the maximum. */
  lemma DelayIsCappedDoubling(attempt: nat, base: Duration, maximum: Duration)
    ensures ExponentialDelay(attempt, base, maximum) == Min(Times(base, PowerOfTwo(Min(attempt, 16))), maximum)
  {
    SixteenthPower();
    PowerGrows(Min(attempt, 16), 16);
  }

  lemma DelayGrows(m: nat, n: nat, base: Duration, maximum: Duration)
    requires m <= n
    ensures ExponentialDelay(m, base, maximum) <= ExponentialDelay(n, base, maximum) <= maximum
  {
    DelayIsCappedDoubling(m, base, maximum);
    DelayIsCappedDoubling(n, base, maximum);
    PowerGrows(Min(m, 16), Min(n, 16));
    MultiplyGrows(base, PowerOfTwo(Min(m, 16)), PowerOfTwo(Min(n, 16)));
  }

  function DelayAfter(policy: RetryPolicy, failedAttempt: nat): Duration {
    ExponentialDelay(failedAttempt, policy.baseDelay, policy.maxDelay)
  }

  /** `max_attempts.max(1)`. */
  function Attempts(policy: RetryPolicy): (n: nat)
    ensures n >= 1
  {
    if policy.maxAttempts < 1 then 1 else policy.maxAttempts
  }

  // ------------------------------------------------------------ what an attempt can come back with

  datatype TransportError = Connect | Timeout | Request | Body | Status | Decode | Redirect | Builder

  datatype Acknowledgement = Acknowledgement(
    acceptedCount: nat,
    duplicateCount: nat,
    firstSequence: nat,
    lastSequence: nat)

  datatype Content =
    | Unreadable(error: TransportError)
    | OffContract
    | Parsed(acknowledgement: Acknowledgement)

  /** What the client sees of one request: an answer with some content, or none. */
  datatype Reply<+C> = NoAnswer(error: TransportError) | Answer(status: nat, content: C)

  predicate RetryableStatus(status: nat) {
    500 <= status < 600 || status == 408 || status == 429
  }

  predicate RetryableError(error: TransportError) {
    error.Connect? || error.Timeout? || error.Request? || error.Body?
  }

  datatype CoreError =
    | Api(error: TransportError)
    | ReportRejected(status: nat)
    | InvalidReportAcknowledgement

  /** `report_outcome`. */
  function ReportOutcome(status: nat, content: Content, itemCount: nat): Result<Acknowledgement, CoreError> {
    if status == 409 || status == 422 || status == 413 then Err(ReportRejected(status))
    else if 400 <= status < 600 then Err(Api(TransportError.Status))
    else if status == 204 then Ok(Acknowledgement(0, 0, 0, 0))
    else if status != 200 then Err(InvalidReportAcknowledgement)
    else
      match content
      case Unreadable(error) => Err(Api(error))
      case OffContract => Err(InvalidReportAcknowledgement)
      case Parsed(ack) =>
        if ack.acceptedCount != itemCount then Err(InvalidReportAcknowledgement)
        else if ack.duplicateCount > ack.acceptedCount || ack.lastSequence < ack.firstSequence then
          Err(InvalidReportAcknowledgement)
        else Ok(ack)
  }

  datatype Verdict = Delivered(acknowledgement: Acknowledgement) | Transient | Permanent(error: CoreError)

  /** How the loop of `report` reads one attempt. */
  function Judge(reply: Reply<Content>, itemCount: nat): (v: Verdict) {
    match reply
    case NoAnswer(error) => if RetryableError(error) then Transient else Permanent(Api(error))
    case Answer(status, content) =>
      if RetryableStatus(status) then Transient
      else
        match ReportOutcome(status, content, itemCount)
        case Ok(ack) => Delivered(ack)
        case Err(Api(error)) => if RetryableError(error) then Transient else Permanent(Api(error))
        case Err(error) => Permanent(error)
  }

  /**
   A batch counts as delivered exactly for a `204`, or for a `200` whose
   acknowledgement accounts for every item consistently.
   */
  lemma DeliveredIff(reply: Reply<Content>, itemCount: nat)
    ensures Judge(reply, itemCount).Delivered? <==>
              && reply.Answer?
              && (|| reply.status == 204
                  || (&& reply.status == 200 && reply.content.Parsed?
                      && var ack := reply.content.acknowledgement;
                         ack.acceptedCount == itemCount && ack.duplicateCount <= itemCount
                         && ack.firstSequence <= ack.lastSequence))
  {
  }

  /**
   An attempt is repeated exactly when the control plane could not be reached or
   read, or answered with 408, 429 or a server error.
   */
  lemma TransientIff(reply: Reply<Content>, itemCount: nat)
    ensures Judge(reply, itemCount).Transient? <==>
              match reply
              case NoAnswer(error) => error in {Connect, Timeout, Request, Body}
              case Answer(status, content) =>
                || status == 408 || status == 429 || 500 <= status <= 599
                || (status == 200 && content.Unreadable? && content.error in {Connect, Timeout, Request, Body})
  {
  }

  /** A rejection names its status, and any other answer that is no acknowledgement is one the contract excludes. */
  lemma PermanentIs(status: nat, content: Content, itemCount: nat)
    requires Judge(Answer(status, content), itemCount).Permanent?
    ensures var error := Judge(Answer(status, content), itemCount).error;
            && (status in {409, 413, 422} ==> error == ReportRejected(status))
            && (400 <= status < 500 && status !in {409, 413, 422} ==> error == Api(TransportError.Status))
            && (status < 400 || status >= 600 ==>
                  error == InvalidReportAcknowledgement || (content.Unreadable? && error == Api(content.error)))
  {
  }

  // ------------------------------------------------------------ the loops

  ghost predicate IsSleepLog(policy: RetryPolicy, slept: seq<Duration>) {
    forall i :: 0 <= i < |slept| ==> slept[i] == DelayAfter(policy, i)
  }

  /**
   `report`: `replies(i)` is what the i-th request comes back with. The requests
   are returned as the keys they were sent under.
   */
  method Report(policy: RetryPolicy, key: string, itemCount: nat, replies: nat -> Reply<Content>)
      returns (result: Result<Acknowledgement, CoreError>, requests: seq<string>, slept: seq<Duration>)
    ensures 1 <= |requests| && (|requests| == 1 || |requests| <= policy.maxAttempts)
    ensures forall i :: 0 <= i < |requests| ==> requests[i] == key
    ensures |slept| == |requests| - 1 && IsSleepLog(policy, slept)
    ensures forall i: nat :: i < |requests| - 1 ==> Judge(replies(i), itemCount).Transient?
    ensures var last := Judge(replies(|requests| - 1), itemCount);
            match last
            case Delivered(ack) => result == Ok(ack)
            case Permanent(error) => result == Err(error)
            case Transient =>
              && |requests| == (if policy.maxAttempts == 0 then 1 else policy.maxAttempts)
              && result == Err(InvalidReportAcknowledgement)
  {
    var attempts := Attempts(policy);
    var attempt: nat := 0;
    requests, slept := [], [];
    while true
      invariant attempt < attempts && |requests| == |slept| == attempt
      invariant forall i :: 0 <= i < |requests| ==> requests[i] == key
      invariant IsSleepLog(policy, slept)
      invariant forall i: nat :: i < attempt ==> Judge(replies(i), itemCount).Transient?
      decreases attempts - attempt
    {
      requests := requests + [key];
      match Judge(replies(attempt), itemCount) {
        case Delivered(ack) => return Ok(ack), requests, slept;
        case Permanent(error) => return Err(error), requests, slept;
        case Transient =>
      }
      if attempt + 1 >= attempts {
        return Err(InvalidReportAcknowledgement), requests, slept;
      }
      slept := slept + [DelayAfter(policy, attempt)];
      attempt := attempt + 1;
    }
  }

  predicate RetryableReply<C>(reply: Reply<C>) {
    match reply
    case NoAnswer(error) => RetryableError(error)
    case Answer(status, _) => RetryableStatus(status)
  }

  /** `send_with_retry`: the last reply is handed to the caller as it is. */
  method SendWithRetry<C>(policy: RetryPolicy, replies: nat -> Reply<C>)
      returns (last: Reply<C>, sent: nat, slept: seq<Duration>)
    ensures 1 <= sent && (sent == 1 || sent <= policy.maxAttempts) && last == replies(sent - 1)
    ensures |slept| == sent - 1 && IsSleepLog(policy, slept)
    ensures forall i: nat :: i < sent - 1 ==> RetryableReply(replies(i))
    ensures RetryableReply(last) ==> sent == (if policy.maxAttempts == 0 then 1 else policy.maxAttempts)
  {
    var attempts := Attempts(policy);
    var attempt: nat := 0;
    slept := [];
    while true
      invariant attempt < attempts && |slept| == attempt
      invariant IsSleepLog(policy, slept)
      invariant forall i: nat :: i < attempt ==> RetryableReply(replies(i))
      decreases attempts - attempt
    {
      last := replies(attempt);
      sent := attempt + 1;
      if !RetryableReply(last) || attempt + 1 >= attempts {
        return;
      }
      slept := slept + [DelayAfter(policy, attempt)];
      attempt := attempt + 1;
    }
  }

  /** Which replies `send_with_retry` does not hand over while attempts are left. */
  lemma RetryableReplyIff<C>(reply: Reply<C>)
    ensures RetryableReply(reply) <==>
              match reply
              case NoAnswer(error) => error in {Connect, Timeout, Request, Body}
              case Answer(status, _) => status == 408 || status == 429 || 500 <= status <= 599
  {
  }

  /** The wait before the i-th repetition is the base delay, doubled i times but at most 16, up to the maximum. */
  lemma WaitsDouble(policy: RetryPolicy, slept: seq<Duration>, i: nat)
    requires IsSleepLog(policy, slept) && i < |slept|
    ensures slept[i] == Min(Times(policy.baseDelay, PowerOfTwo(Min(i, 16))), policy.maxDelay)
    ensures i + 1 < |slept| && i < 16 && 2 * slept[i] <= policy.maxDelay ==> slept[i + 1] == 2 * slept[i]
  {
    DelayIsCappedDoubling(i, policy.baseDelay, policy.maxDelay);
    if i + 1 < |slept| && i < 16 {
      DelayIsCappedDoubling(i + 1, policy.baseDelay, policy.maxDelay);
      Doubles(policy.baseDelay, PowerOfTwo(i));
    }
  }

  lemma Doubles(a: nat, b: nat)
    ensures Times(a, 2 * b) == 2 * Times(a, b)
  {
  }

  function Total(slept: seq<Duration>): (n: nat) {
    if slept == [] then 0 else Total(slept[..|slept| - 1]) + slept[|slept| - 1]
  }

  /** The waits never shrink, none exceeds the maximum, and together they stay within `(attempts - 1) * max_delay`. */
  lemma {:induction false} WaitIsBounded(policy: RetryPolicy, slept: seq<Duration>)
    requires IsSleepLog(policy, slept) && |slept| < Attempts(policy)
    ensures forall i, j :: 0 <= i <= j < |slept| ==> slept[i] <= slept[j] <= policy.maxDelay
    ensures Total(slept) <= |slept| * policy.maxDelay <= (Attempts(policy) - 1) * policy.maxDelay
  {
    hide ExponentialDelay;
    forall i, j | 0 <= i <= j < |slept| ensures slept[i] <= slept[j] <= policy.maxDelay {
      DelayGrows(i, j, policy.baseDelay, policy.maxDelay);
    }
    TotalIsBounded(slept, policy.maxDelay);
    MultiplyGrows(policy.maxDelay, |slept|, Attempts(policy) - 1);
    Commutes(policy.maxDelay, |slept|);
    Commutes(policy.maxDelay, Attempts(policy) - 1);
  }

  lemma Commutes(a: nat, b: nat)
    ensures a * b == b * a
  {
  }

  lemma {:induction false} TotalIsBounded(slept: seq<Duration>, maximum: nat)
    requires forall i :: 0 <= i < |slept| ==> slept[i] <= maximum
    ensures Total(slept) <= |slept| * maximum
  {
    if slept != [] {
      TotalIsBounded(slept[..|slept| - 1], maximum);
      assert |slept| * maximum == (|slept| - 1) * maximum + maximum;
    }
  }
}
