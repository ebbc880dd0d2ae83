/** The bounded retry loop of notify_app_b (app_a/app_a.py:56-85). The broker
    is not modelled: what each attempt runs into is an input. */
module Notifier {

  /** `for attempt in range(5)`. */
  const MaxAttempts: nat := 5

  /** How one pass through the `try` block ends. */
  datatype Attempt =
      /** Connected, declared the exchange, published every change, closed: `break`. */
    | Completes
      /** BlockingConnection raised: no connection was opened, nothing published. */
    | ConnectFails
      /** A connection was opened, then an exception was raised after `published`
          basic_publish calls (when `published` >= the number of changes, by close()). */
    | FailsAfter(published: nat)

  /** The messages one attempt hands to the broker: every burst starts again
      at the first change. */
  function Published(changes: seq<string>, a: Attempt): (r: seq<string>)
    ensures r <= changes
    ensures a == Completes ==> r == changes
  {
    match a
    case Completes => changes
    case ConnectFails => []
    case FailsAfter(n) => if n < |changes| then changes[..n] else changes
  }

  /** How many attempts are made from attempt i on: up to and including the
      first that completes, and never beyond the fifth. */
  function AttemptCount(outcome: nat -> Attempt, i: nat): (n: nat)
    requires i < MaxAttempts
    ensures i < n <= MaxAttempts
    ensures outcome(n - 1) == Completes || n == MaxAttempts
    ensures forall j :: i <= j < n - 1 ==> outcome(j) != Completes
    decreases MaxAttempts - i
  {
    if outcome(i) == Completes || i == MaxAttempts - 1 then i + 1
    else AttemptCount(outcome, i + 1)
  }

  /** Everything published by the first n attempts, in order. */
  function SentLog(changes: seq<string>, outcome: nat -> Attempt, n: nat): seq<string> {
    if n == 0 then [] else SentLog(changes, outcome, n - 1) + Published(changes, outcome(n - 1))
  }

  /** How many of the first n attempts opened a connection. */
  function Opened(outcome: nat -> Attempt, n: nat): nat {
    if n == 0 then 0 else Opened(outcome, n - 1) + (if outcome(n - 1) == ConnectFails then 0 else 1)
  }

  /** How many of the first n attempts connected and then failed: the code
      does not close those connections, since close() is never reached or it
      raised. */
  function Unclosed(outcome: nat -> Attempt, n: nat): nat {
    if n == 0 then 0 else Unclosed(outcome, n - 1) + (if outcome(n - 1).FailsAfter? then 1 else 0)
  }

  /** notify_app_b(changes). `delivered` is false exactly when the loop runs
      out of attempts and its `else` branch logs the final error. */
  method NotifyAppB(changes: seq<string>, outcome: nat -> Attempt)
    returns (sent: seq<string>, attempts: nat, delivered: bool, connected: nat, closed: nat)
    ensures attempts == AttemptCount(outcome, 0)
    ensures 1 <= attempts <= MaxAttempts
    ensures delivered <==> outcome(attempts - 1) == Completes
    ensures !delivered <==> forall j :: 0 <= j < MaxAttempts ==> outcome(j) != Completes
    ensures sent == SentLog(changes, outcome, attempts)
    ensures connected == Opened(outcome, attempts)
    ensures closed == if delivered then 1 else 0
    ensures connected - closed == Unclosed(outcome, attempts)
  {
    sent, attempts, delivered, connected, closed := [], 0, false, 0, 0;
    for attempt := 0 to MaxAttempts
      invariant attempts == attempt && !delivered && closed == 0
      invariant forall j :: 0 <= j < attempt ==> outcome(j) != Completes
      invariant sent == SentLog(changes, outcome, attempt)
      invariant connected == Opened(outcome, attempt)
      invariant connected == Unclosed(outcome, attempt)
    {
      attempts := attempt + 1;
      var result := outcome(attempt);
      assert SentLog(changes, outcome, attempt + 1) == sent + Published(changes, result);
      assert Opened(outcome, attempt + 1) == connected + (if result == ConnectFails then 0 else 1);
      assert Unclosed(outcome, attempt + 1) == connected + (if result.FailsAfter? then 1 else 0);
      if result != ConnectFails {
        connected := connected + 1;
        var published := PublishBurst(changes, result);
        sent := sent + published;
        if result == Completes {
          closed := closed + 1;
          delivered := true;
          AttemptCountIsFirstCompletion(outcome, 0, attempt);
          break;
        }
      }
    }
  }

  /** The inner `for change in changes` loop of one attempt that got a
      connection: publish the changes in order until the attempt fails. */
  method PublishBurst(changes: seq<string>, result: Attempt) returns (published: seq<string>)
    requires result != ConnectFails
    ensures published == Published(changes, result)
  {
    published := [];
    var i := 0;
    while i < |changes| && !(result.FailsAfter? && i == result.published)
      invariant 0 <= i <= |changes|
      invariant result.FailsAfter? ==> i <= result.published
      invariant published == changes[..i]
    {
      published := published + [changes[i]];
      i := i + 1;
    }
  }

  /** The attempts stop at the first that completes, or after the fifth. */
  lemma {:induction false} AttemptCountIsFirstCompletion(outcome: nat -> Attempt, i: nat, n: nat)
    requires i <= n < MaxAttempts
    requires outcome(n) == Completes
    requires forall j :: i <= j < n ==> outcome(j) != Completes
    ensures AttemptCount(outcome, i) == n + 1
    decreases n - i
  {
    if i < n {
      AttemptCountIsFirstCompletion(outcome, i + 1, n);
    }
  }

  /** Every message sent is one of the changes: attempts only ever re-send. */
  lemma {:induction false} SentLogFromChanges(changes: seq<string>, outcome: nat -> Attempt, n: nat)
    ensures forall m :: m in SentLog(changes, outcome, n) ==> m in changes
  {
    if n > 0 {
      SentLogFromChanges(changes, outcome, n - 1);
    }
  }

  /** A burst that fails after k messages is re-sent in full from the first
      change: when the second attempt completes, the first k changes go out twice. */
  lemma RetryResendsFromStart(changes: seq<string>, outcome: nat -> Attempt, k: nat)
    requires outcome(0) == FailsAfter(k) && k <= |changes|
    requires outcome(1) == Completes
    ensures AttemptCount(outcome, 0) == 2
    ensures SentLog(changes, outcome, AttemptCount(outcome, 0)) == changes[..k] + changes
  {
    AttemptCountIsFirstCompletion(outcome, 0, 1);
    assert SentLog(changes, outcome, 1) == changes[..k];
    assert SentLog(changes, outcome, 2) == SentLog(changes, outcome, 1) + changes;
  }
}
