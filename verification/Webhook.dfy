/** Sending a webhook: bounded retries with doubling backoff, and one record of the delivery. */
module Webhook {
  import opened Wrappers

  datatype Response = Status(code: int) | NetworkError

  /** What the world does around one attempt: the request may not be constructed, the endpoint answers or
      not, and the context may be cancelled during the wait that follows. */
  datatype Attempt = Attempt(buildFails: bool, response: Response, cancelled: bool)

  /** A row of webhook_deliveries. */
  datatype Delivery = Delivery(status: int, attempts: int, failed: bool)

  datatype Outcome = NoTarget | Unmarshallable | Delivered | GaveUp | NotRequested | Cancelled

  const MAX_RETRIES := 5
  const FIRST_BACKOFF := 100

  predicate Succeeds(r: Response) {
    r.Status? && 200 <= r.code < 300
  }

  /** A client error other than 429 is final. */
  predicate IsFinal(code: int) {
    400 <= code < 500 && code != 429
  }

  /** What one attempt comes to, on its own. */
  function Verdict(a: Attempt, last: bool): Option<Outcome> {
    if a.buildFails then Some(NotRequested)
    else if Succeeds(a.response) then Some(Delivered)
    else if (a.response.Status? && IsFinal(a.response.code)) || last then Some(GaveUp)
    else if a.cancelled then Some(Cancelled)
    else None
  }

  type Attempts = s: seq<Attempt> | |s| == MAX_RETRIES witness seq(MAX_RETRIES, i => Attempt(false, NetworkError, false))

  function VerdictAt(world: Attempts, k: nat): Option<Outcome>
    requires k < MAX_RETRIES
  {
    Verdict(world[k], k == MAX_RETRIES - 1)
  }

  /** The first attempt from k on that ends it all. */
  function EndFrom(world: Attempts, k: nat): (end: nat)
    requires k < MAX_RETRIES
    ensures k <= end < MAX_RETRIES && VerdictAt(world, end).Some?
    ensures forall i :: k <= i < end ==> VerdictAt(world, i).None?
    decreases MAX_RETRIES - k
  {
    if VerdictAt(world, k).Some? then k else EndFrom(world, k + 1)
  }

  /** The last status any of the first n posts brought; 0 before there was one. */
  function LastStatus(world: Attempts, n: nat): int
    requires n <= MAX_RETRIES
  {
    if n == 0 then 0 else match world[n - 1].response case Status(code) => code case NetworkError => LastStatus(world, n - 1)
  }

  function Power2(n: nat): (p: nat)
    ensures p >= 1
  {
    if n == 0 then 1 else 2 * Power2(n - 1)
  }

  /** The waits after the first n attempts. */
  function TotalBackoff(n: nat): nat {
    FIRST_BACKOFF * (Power2(n) - 1)
  }

  /** What gets recorded when the attempt at index end is the last. */
  function RecordOf(world: Attempts, end: nat): Option<Delivery>
    requires end < MAX_RETRIES && VerdictAt(world, end).Some?
  {
    match VerdictAt(world, end).value
    case Delivered => Some(Delivery(world[end].response.code, end + 1, false))
    case GaveUp => Some(Delivery(LastStatus(world, end + 1), MAX_RETRIES, true))
    case _ => None
  }

  class Sender {
    var deliveries: seq<Delivery>

    constructor ()
      ensures deliveries == []
    {
      deliveries := [];
    }

    /** Posts up to the first attempt that is decisive by its own response; the status remembered from
        earlier attempts never decides anything. */
    method SendWebhook(target: string, world: Attempts, marshalFails: bool) returns (outcome: Outcome, posts: nat, slept: nat)
      modifies this
      ensures target == "" ==> outcome == NoTarget && posts == 0 && slept == 0 && deliveries == old(deliveries)
      ensures target != "" && marshalFails ==>
                outcome == Unmarshallable && posts == 0 && slept == 0 && deliveries == old(deliveries)
      ensures target != "" && !marshalFails ==>
                var end := EndFrom(world, 0);
                && Some(outcome) == VerdictAt(world, end)
                && posts == (if outcome.NotRequested? then end else end + 1)
                && slept == TotalBackoff(end)
                && deliveries == old(deliveries) + (match RecordOf(world, end) case Some(d) => [d] case None => [])
    {
      posts, slept := 0, 0;
      if target == "" {
        return NoTarget, 0, 0;
      }
      if marshalFails {
        return Unmarshallable, 0, 0;
      }
      var attempt, backoff, status := 1, FIRST_BACKOFF, 0;
      while attempt <= MAX_RETRIES
        invariant 1 <= attempt <= MAX_RETRIES
        invariant EndFrom(world, attempt - 1) == EndFrom(world, 0)
        invariant posts == attempt - 1 && slept == TotalBackoff(attempt - 1)
        invariant backoff == FIRST_BACKOFF * Power2(attempt - 1)
        invariant status == LastStatus(world, attempt - 1) && !IsFinal(status)
        invariant deliveries == old(deliveries)
        decreases MAX_RETRIES - attempt
      {
        var a := world[attempt - 1];
        if a.buildFails {
          return NotRequested, posts, slept;
        }
        posts := posts + 1;
        if a.response.Status? {
          status := a.response.code;
          if 200 <= status < 300 {
            deliveries := deliveries + [Delivery(status, attempt, false)];
            return Delivered, posts, slept;
          }
        }
        if IsFinal(status) || attempt == MAX_RETRIES {
          break;
        }
        if a.cancelled {
          return Cancelled, posts, slept;
        }
        slept := slept + backoff;
        backoff := backoff * 2;
        attempt := attempt + 1;
      }
      deliveries := deliveries + [Delivery(status, MAX_RETRIES, true)];
      outcome := GaveUp;
    }
  }

  // What the contract comes to

  /** Constructing requests succeeds and nothing is cancelled. */
  ghost predicate Undisturbed(world: Attempts) {
    forall k :: 0 <= k < MAX_RETRIES ==> !world[k].buildFails && !world[k].cancelled
  }

  /** 2xx, or 4xx other than 429. */
  predicate Decisive(r: Response) {
    r.Status? && (200 <= r.code < 300 || (400 <= r.code < 500 && r.code != 429))
  }

  /** Left alone, the number of posts is the place of the first 2xx or final 4xx, or the maximum, and
      exactly one delivery is recorded. */
  lemma PostsUndisturbed(world: Attempts)
    requires Undisturbed(world)
    ensures var end := EndFrom(world, 0);
            && (forall k :: 0 <= k < end ==> !Decisive(world[k].response))
            && (Decisive(world[end].response) || end == MAX_RETRIES - 1)
            && RecordOf(world, end).Some?
            && (RecordOf(world, end).value.failed
                <==> world[end].response.NetworkError? || world[end].response.code / 100 != 2)
  {
  }

  lemma {:induction false} PowersGrow(a: nat, b: nat)
    requires a <= b
    ensures Power2(a) <= Power2(b)
  {
    if a < b {
      PowersGrow(a, b - 1);
    }
  }

  /** All waits together take at most 1.5 seconds. */
  lemma BackoffBounded(world: Attempts)
    ensures TotalBackoff(EndFrom(world, 0)) <= TotalBackoff(MAX_RETRIES - 1) == 1500
  {
    PowersGrow(EndFrom(world, 0), MAX_RETRIES - 1);
    assert Power2(4) == 2 * Power2(3) == 4 * Power2(2) == 16;
  }

  /** The attempts on record are the posts made exactly when the delivery succeeded or went through all of
      them: a final client error before that is recorded with the maximum. */
  lemma RecordedAttempts(world: Attempts)
    requires RecordOf(world, EndFrom(world, 0)).Some?
    ensures var end := EndFrom(world, 0); var d := RecordOf(world, end).value;
            d.attempts == end + 1 <==> !d.failed || end + 1 == MAX_RETRIES
  {
  }

  /** A failure's status on record is what the last post brought, unless that was a network error; then it
      is left over from an earlier post, or 0 if none was answered. */
  lemma {:induction false} LeftOverStatus(world: Attempts, n: nat)
    requires 0 < n <= MAX_RETRIES
    ensures world[n - 1].response.Status? ==> LastStatus(world, n) == world[n - 1].response.code
    ensures world[n - 1].response.NetworkError? ==>
              if exists k :: 0 <= k < n && world[k].response.Status?
              then exists k :: 0 <= k < n - 1 && world[k].response == Status(LastStatus(world, n))
                               && forall j :: k < j < n ==> world[j].response.NetworkError?
              else LastStatus(world, n) == 0
  {
    if world[n - 1].response.NetworkError? && n > 1 {
      LeftOverStatus(world, n - 1);
      if world[n - 2].response.Status? {
        assert world[n - 2].response == Status(LastStatus(world, n));
      } else if exists k :: 0 <= k < n && world[k].response.Status? {
        var k :| 0 <= k < n - 2 && world[k].response == Status(LastStatus(world, n - 1))
                 && forall j :: k < j < n - 1 ==> world[j].response.NetworkError?;
        assert world[k].response == Status(LastStatus(world, n));
      }
    }
  }

  /** What a delivery is recorded with: the status of the response that decides it, or for an unanswered last
      post the status of the last answered one. */
  lemma RecordedStatus(world: Attempts)
    requires RecordOf(world, EndFrom(world, 0)).Some?
    ensures var end := EndFrom(world, 0); var d := RecordOf(world, end).value;
            && (d.failed <==> !Succeeds(world[end].response))
            && match world[end].response
               case Status(code) => d.status == code
               case NetworkError =>
                 if exists k :: 0 <= k < end && world[k].response.Status?
                 then exists k :: 0 <= k < end && world[k].response == Status(d.status)
                                  && forall j :: k < j <= end ==> world[j].response.NetworkError?
                 else d.status == 0
  {
    LeftOverStatus(world, EndFrom(world, 0) + 1);
  }
}
