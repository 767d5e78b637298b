/** Webhook delivery: the bounded retry loop, and the wrapper that turns every way it can end into a yes or a no. */
module Webhook {
  import opened Base

  /** What one POST attempt meets. */
  datatype Attempt =
    | Timeout
    | ConnectionError
    | OtherException
    | Response(status: int)

  /** How `send_webhook` ends. */
  datatype Outcome =
    | Delivered
    | NotConfigured
    | Rejected(status: int)
    | Crashed
    | Exhausted(lastError: Option<Attempt>)

  /** The outcomes the loop goes on after: a timeout, a connection error and a server error. */
  predicate Retried(a: Attempt) {
    a.Timeout? || a.ConnectionError? || (a.Response? && a.status >= 500)
  }

  /** How an attempt that is not retried ends the delivery. */
  function Ending(a: Attempt): (o: Outcome)
    requires !Retried(a)
    ensures o == Delivered <==> a.Response? && a.status < 300
    ensures forall x :: o == Rejected(x) <==> a == Response(x) && 300 <= x < 500
    ensures o == Crashed <==> a.OtherException?
  {
    if a.OtherException? then Crashed else if a.status < 300 then Delivered else Rejected(a.status)
  }

  /** The first attempt among the first `n` that is not retried, counting from 1; `n + 1` if there is none. */
  function FirstDecisive(attempts: nat -> Attempt, n: nat): (k: nat)
    ensures 1 <= k <= n + 1
    ensures k <= n ==> attempts(k).OtherException? || (attempts(k).Response? && attempts(k).status < 500)
    ensures forall j :: 1 <= j < k ==>
              || attempts(j).Timeout? || attempts(j).ConnectionError?
              || (attempts(j).Response? && attempts(j).status >= 500)
  {
    if n == 0 then 1
    else
      var k := FirstDecisive(attempts, n - 1);
      if k < n || !Retried(attempts(n)) then k else n + 1
  }

  function Sum(sleeps: seq<real>): real {
    if sleeps == [] then 0.0 else Sum(sleeps[..|sleeps| - 1]) + sleeps[|sleeps| - 1]
  }

  /** The backoff is linear: after attempt `i` the loop sleeps `i` times the base. */
  predicate LinearBackoff(sleeps: seq<real>, base: real) {
    forall i :: 0 <= i < |sleeps| ==> sleeps[i] == base * (i + 1) as real
  }

  lemma {:induction false} BackoffTotal(sleeps: seq<real>, base: real)
    requires LinearBackoff(sleeps, base)
    ensures Sum(sleeps) == base * (|sleeps| * (|sleeps| + 1) / 2) as real
  {
    if sleeps != [] {
      var n := |sleeps|;
      BackoffTotal(sleeps[..n - 1], base);
      assert n * (n + 1) / 2 == (n - 1) * n / 2 + n;
    }
  }

  /** The time a delivery with `made` attempts has slept: none after the last attempt. */
  function SleptFor(base: real, made: nat): real {
    base * (made * (made - 1) / 2) as real
  }

  ghost predicate SleepsOk(sleeps: seq<real>, base: real, count: nat) {
    |sleeps| == count && LinearBackoff(sleeps, base)
  }

  lemma SleepsPush(sleeps: seq<real>, base: real, count: nat)
    requires SleepsOk(sleeps, base, count)
    ensures SleepsOk(sleeps + [base * (count + 1) as real], base, count + 1)
  {
  }

  lemma SleepsTotal(sleeps: seq<real>, base: real, made: nat)
    requires SleepsOk(sleeps, base, if made == 0 then 0 else made - 1)
    ensures Sum(sleeps) == SleptFor(base, made)
  {
    BackoffTotal(sleeps, base);
    if made > 0 {
      assert |sleeps| * (|sleeps| + 1) == made * (made - 1);
    }
  }

  /**
   * `send_webhook`: `attempts(i)` is what attempt `i` would meet, `maxAttempts` may be any integer. Returns how it
   * ended, the number of attempts made, and every sleep in order.
   */
  method SendWebhook(configured: bool, maxAttempts: int, base: real, attempts: nat -> Attempt)
    returns (outcome: Outcome, made: nat, sleeps: seq<real>)
    ensures !configured ==> outcome == NotConfigured && made == 0 && sleeps == []
    ensures made <= if maxAttempts < 0 then 0 else maxAttempts
    ensures forall j :: 1 <= j < made ==>
              || attempts(j).Timeout? || attempts(j).ConnectionError?
              || (attempts(j).Response? && attempts(j).status >= 500)
    ensures |sleeps| == (if made == 0 then 0 else made - 1)
    ensures forall i :: 0 <= i < |sleeps| ==> sleeps[i] == base * (i + 1) as real
    ensures Sum(sleeps) == SleptFor(base, made)
    ensures outcome == Delivered <==> made > 0 && attempts(made).Response? && attempts(made).status < 300
    ensures forall x :: outcome == Rejected(x) <==> made > 0 && attempts(made) == Response(x) && 300 <= x < 500
    ensures outcome == Crashed <==> made > 0 && attempts(made).OtherException?
    ensures outcome.Exhausted? <==>
              && configured && made == (if maxAttempts < 0 then 0 else maxAttempts)
              && (made > 0 ==>
                    || attempts(made).Timeout? || attempts(made).ConnectionError?
                    || (attempts(made).Response? && attempts(made).status >= 500))
    ensures outcome.Exhausted? ==> outcome.lastError == if made == 0 then None else Some(attempts(made))
    ensures configured ==>
      var n := if maxAttempts < 0 then 0 else maxAttempts;
      var k := FirstDecisive(attempts, n);
      && made == (if k <= n then k else n)
      && outcome == (if k <= n then Ending(attempts(k)) else Exhausted(if n == 0 then None else Some(attempts(n))))
  {
    made, sleeps := 0, [];
    if !configured {
      SleepsTotal([], base, 0);
      return NotConfigured, 0, [];
    }
    ghost var n: nat := if maxAttempts < 0 then 0 else maxAttempts;
    var lastError: Option<Attempt> := None;
    var attempt := 1;
    while attempt <= maxAttempts
      invariant 1 <= attempt <= n + 1 && made == attempt - 1
      invariant forall j :: 1 <= j < attempt ==> Retried(attempts(j))
      invariant lastError == if attempt == 1 then None else Some(attempts(attempt - 1))
      invariant SleepsOk(sleeps, base, if made == 0 || made < n then made else made - 1)
    {
      made := attempt;
      var a := attempts(attempt);
      if !Retried(a) {
        SleepsTotal(sleeps, base, made);
      }
      if a.OtherException? {
        return Crashed, made, sleeps;
      }
      if a.Response? {
        if a.status < 300 {
          return Delivered, made, sleeps;
        }
        if a.status < 500 {
          return Rejected(a.status), made, sleeps;
        }
      }
      lastError := Some(a);
      if attempt < maxAttempts {
        SleepsPush(sleeps, base, attempt - 1);
        sleeps := sleeps + [base * attempt as real];
      }
      attempt := attempt + 1;
    }
    SleepsTotal(sleeps, base, made);
    outcome := Exhausted(lastError);
  }

  /** `deliver_event`: never raises, and answers True only on confirmed delivery. */
  method DeliverEvent(configured: bool, maxAttempts: int, base: real, attempts: nat -> Attempt)
    returns (delivered: bool)
    ensures delivered <==>
      configured && exists k: nat :: 1 <= k <= maxAttempts && attempts(k).Response? && attempts(k).status < 300
                       && forall j :: 1 <= j < k ==>
                            || attempts(j).Timeout? || attempts(j).ConnectionError?
                            || (attempts(j).Response? && attempts(j).status >= 500)
  {
    var outcome, made, _ := SendWebhook(configured, maxAttempts, base, attempts);
    delivered := outcome == Delivered;
    if delivered {
      assert 1 <= made <= maxAttempts && attempts(made).Response? && attempts(made).status < 300;
    }
    if k: nat :| 1 <= k <= maxAttempts && attempts(k).Response? && attempts(k).status < 300
                   && forall j :: 1 <= j < k ==> Retried(attempts(j))
    {
      assert FirstDecisive(attempts, maxAttempts) == k;
    }
  }
}
