/** The delivery retry policy shared by `send_message_to_user` and `safe_reply`
    (bot.py). The transport is a parameter: `outcomes[k]` is what the chat API
    does on attempt `k` (delivers, or raises an error with a message and a type
    name). Sleeps become returned delays in milliseconds. */
module Dispatch {
  import opened Text

  datatype Outcome = Delivered | Raised(message: string, typeName: string)

  /** How a raised error is treated. */
  datatype ErrorKind = Blocked | Retryable | NonRetryable

  const MaxRetries: nat := 5
  const BaseDelayMs: nat := 3000
  /** Pause after a delivered message: `send_message_to_user` sleeps 0.5 s. */
  const SendPauseMs: nat := 500
  /** Pause after a delivered reply: `safe_reply` sleeps 0.3 s. */
  const ReplyPauseMs: nat := 300

  const BlockedMessage: string := "bot was blocked"
  const ForbiddenType: string := "Forbidden"
  const RetryableMarkers: seq<string> := [
    "ConnectError", "NetworkError", "TimedOut", "TimeoutError",
    "ConnectionError", "ReadTimeout", "ConnectTimeout",
    "RemoteDisconnected", "BadGateway", "ServiceUnavailable"]

  /** Some marker occurs in the error's message or in its type name. */
  predicate MentionsAny(markers: seq<string>, message: string, typeName: string) {
    exists i :: 0 <= i < |markers| && (IsSubstring(markers[i], message) || IsSubstring(markers[i], typeName))
  }

  /** The source's classification: the blocked test comes first, so a blocked
      error is never retried even if it also looks like a network error. */
  function Classify(message: string, typeName: string): (k: ErrorKind)
    ensures k == Blocked <==> IsSubstring(BlockedMessage, message) || IsSubstring(ForbiddenType, typeName)
    ensures k == Retryable ==> MentionsAny(RetryableMarkers, message, typeName)
    ensures k == NonRetryable ==> !MentionsAny(RetryableMarkers, message, typeName)
  {
    if IsSubstring(BlockedMessage, message) || IsSubstring(ForbiddenType, typeName) then Blocked
    else if MentionsAny(RetryableMarkers, message, typeName) then Retryable
    else NonRetryable
  }

  /** An attempt after which the policy tries again (unless it was the last). */
  predicate Transient(o: Outcome) {
    o.Raised? && Classify(o.message, o.typeName) == Retryable
  }

  function Pow2(k: nat): (r: nat)
    ensures r >= 1
  {
    if k == 0 then 1 else 2 * Pow2(k - 1)
  }

  /** What one call of the policy did: whether the message got through, how
      many attempts were made, the backoff waits between them, and the pause
      taken after a delivery. */
  datatype Report = Report(delivered: bool, attempts: nat, waits: seq<nat>, pauseMs: nat)

  /** The policy, stated declaratively: the attempts before the last one all
      failed with a retryable error; the last one is the first that did not,
      or the fifth; the call succeeds iff that last attempt delivered; the
      k-th wait is `3 * 2^k` seconds; the pause follows a delivery only. */
  ghost predicate Follows(outcomes: seq<Outcome>, r: Report, pauseMs: nat)
    requires |outcomes| >= MaxRetries
  {
    && 1 <= r.attempts <= MaxRetries
    && (forall i :: 0 <= i < r.attempts - 1 ==> Transient(outcomes[i]))
    && (r.attempts < MaxRetries ==> !Transient(outcomes[r.attempts - 1]))
    && (r.delivered <==> outcomes[r.attempts - 1].Delivered?)
    && |r.waits| == r.attempts - 1
    && (forall i :: 0 <= i < |r.waits| ==> r.waits[i] == BaseDelayMs * Pow2(i))
    && r.pauseMs == (if r.delivered then pauseMs else 0)
  }

  /** The retry loop of `send_message_to_user` / `safe_reply`. */
  method Deliver(outcomes: seq<Outcome>, pauseMs: nat) returns (r: Report)
    requires |outcomes| >= MaxRetries
    ensures Follows(outcomes, r, pauseMs)
  {
    var attempt := 0;
    var waits: seq<nat> := [];
    while true
      invariant 0 <= attempt < MaxRetries
      invariant |waits| == attempt
      invariant forall i :: 0 <= i < attempt ==> waits[i] == BaseDelayMs * Pow2(i)
      invariant forall i :: 0 <= i < attempt ==> Transient(outcomes[i])
      decreases MaxRetries - attempt
    {
      match outcomes[attempt]
      case Delivered =>
        return Report(true, attempt + 1, waits, pauseMs);
      case Raised(message, typeName) =>
        var kind := Classify(message, typeName);
        if kind == Blocked {
          return Report(false, attempt + 1, waits, 0);
        }
        if attempt < MaxRetries - 1 {
          if kind == Retryable {
            waits := waits + [BaseDelayMs * Pow2(attempt)];
            attempt := attempt + 1;
          } else {
            return Report(false, attempt + 1, waits, 0);
          }
        } else {
          return Report(false, attempt + 1, waits, 0);
        }
    }
  }

  /** `send_message_to_user`: the policy with a 0.5 s pause after delivery. */
  method SendMessageToUser(outcomes: seq<Outcome>) returns (r: Report)
    requires |outcomes| >= MaxRetries
    ensures Follows(outcomes, r, SendPauseMs)
  {
    r := Deliver(outcomes, SendPauseMs);
  }

  /** `safe_reply`: the same policy with a 0.3 s pause; the source discards the
      result, the report says what happened. */
  method SafeReply(outcomes: seq<Outcome>) returns (r: Report)
    requires |outcomes| >= MaxRetries
    ensures Follows(outcomes, r, ReplyPauseMs)
  {
    r := Deliver(outcomes, ReplyPauseMs);
  }

  /** The declarative policy leaves no choice: one report fits a transport. */
  lemma FollowsUnique(outcomes: seq<Outcome>, r1: Report, r2: Report, pauseMs: nat)
    requires |outcomes| >= MaxRetries
    requires Follows(outcomes, r1, pauseMs) && Follows(outcomes, r2, pauseMs)
    ensures r1 == r2
  {
    assert r1.waits == r2.waits;
  }

  /** The call succeeds iff some attempt among the first five delivers and
      every attempt before it failed with a retryable error. */
  lemma DeliveredIff(outcomes: seq<Outcome>, r: Report, pauseMs: nat)
    requires |outcomes| >= MaxRetries
    requires Follows(outcomes, r, pauseMs)
    ensures r.delivered <==> exists i :: 0 <= i < MaxRetries && outcomes[i].Delivered?
                                     && forall j :: 0 <= j < i ==> Transient(outcomes[j])
  {
    if exists i :: 0 <= i < MaxRetries && outcomes[i].Delivered? && forall j :: 0 <= j < i ==> Transient(outcomes[j]) {
      var i :| 0 <= i < MaxRetries && outcomes[i].Delivered? && forall j :: 0 <= j < i ==> Transient(outcomes[j]);
    }
  }

  /** A blocked error, or a non-retryable one, ends the call at once: no
      further attempt, no further wait, and no success. */
  lemma StopsAtPermanentError(outcomes: seq<Outcome>, r: Report, pauseMs: nat, i: nat)
    requires |outcomes| >= MaxRetries
    requires Follows(outcomes, r, pauseMs)
    requires i < MaxRetries && outcomes[i].Raised?
    requires Classify(outcomes[i].message, outcomes[i].typeName) != Retryable
    requires forall j :: 0 <= j < i ==> Transient(outcomes[j])
    ensures r.attempts == i + 1 && !r.delivered && |r.waits| == i
  {
  }

  /** Five retryable failures in a row: the call gives up after the fifth
      attempt, having waited 3, 6, 12 and 24 seconds. */
  lemma GivesUpAfterFive(outcomes: seq<Outcome>, r: Report, pauseMs: nat)
    requires |outcomes| >= MaxRetries
    requires Follows(outcomes, r, pauseMs)
    requires forall j :: 0 <= j < MaxRetries ==> Transient(outcomes[j])
    ensures r.attempts == MaxRetries && !r.delivered
    ensures r.waits == [3000, 6000, 12000, 24000]
  {
    assert Pow2(1) == 2 && Pow2(2) == 4 && Pow2(3) == 8;
  }
}
