/** Publishing one measurement: a bounded number of attempts with a pause between them. */
module Publishing {
  import opened Bytes
  import opened Durations

  const PUBLISH_TIMEOUT := 5 * SECOND
  const RETRY_DELAY := 1 * SECOND
  const PUBLISH_RETRIES: nat := 1

  /** What the broker does with an attempt; without an answer the client stops waiting after the timeout. */
  datatype Reply = Accepted | Refused | NoAnswer

  /**
   The surroundings of one attempt: whether the context was cancelled before it or, at some point, during the pause before
   it, and the reply with the time it took.
   */
  datatype Round = Round(cancelled: bool, cancelledInPause: Option<nat>, reply: Reply, took: nat) {
    predicate Possible() {
      && (cancelledInPause.Some? ==> cancelledInPause.value <= RETRY_DELAY)
      && took <= PUBLISH_TIMEOUT
      && (reply.NoAnswer? ==> took == PUBLISH_TIMEOUT)
    }
  }

  datatype Error = Cancelled | TimedOut(attempt: nat) | Rejected(attempt: nat)

  datatype Publication = Publication(error: Option<Error>, attempts: nat, elapsed: nat)

  /** The context is found cancelled before attempt k is made. */
  predicate StoppedBefore(rounds: seq<Round>, k: nat)
    requires k < |rounds|
  {
    rounds[k].cancelled || (k > 0 && rounds[k].cancelledInPause.Some?)
  }

  function Replies(rounds: seq<Round>): seq<Reply> {
    seq(|rounds|, k requires 0 <= k < |rounds| => rounds[k].reply)
  }

  class Client {
    /** Replies of the attempts made, over the life of the client. */
    var replies: seq<Reply>

    constructor ()
      ensures replies == []
    {
      replies := [];
    }

    /**
     Publish with any number of retries, in the given surroundings: attempts are made until one is accepted, the context
     is found cancelled or none is left, within a bounded time; the result is that of the last attempt, or the
     cancellation.
     */
    method Publish(retries: nat, rounds: seq<Round>) returns (p: Publication)
      requires |rounds| == retries + 1 && forall r | r in rounds :: r.Possible()
      modifies this
      ensures p.attempts <= retries + 1 && replies == old(replies) + Replies(rounds[..p.attempts])
      ensures p.elapsed <= (retries + 1) * 5_000_000_000 + retries * 1_000_000_000
      ensures forall k | 0 <= k < p.attempts :: !StoppedBefore(rounds, k)
      ensures forall k | 0 <= k < p.attempts - 1 :: !rounds[k].reply.Accepted?
      ensures p.error.None? <==> p.attempts > 0 && rounds[p.attempts - 1].reply.Accepted?
      ensures p.error == Some(Cancelled) <==> p.error.Some? && p.attempts <= retries && StoppedBefore(rounds, p.attempts)
      ensures p.error.Some? && p.error != Some(Cancelled) ==>
                && p.attempts == retries + 1
                && p.error.value == if rounds[retries].reply.NoAnswer? then TimedOut(retries + 1) else Rejected(retries + 1)
    {
      var error: Option<Error> := None;
      var elapsed: nat := 0;
      for attempt := 0 to retries + 1
        invariant replies == old(replies) + Replies(rounds[..attempt])
        invariant forall k | 0 <= k < attempt :: !StoppedBefore(rounds, k) && !rounds[k].reply.Accepted?
        invariant elapsed <= attempt * PUBLISH_TIMEOUT + (if attempt > 0 then attempt - 1 else 0) * RETRY_DELAY
        invariant attempt > 0 ==>
                    error == Some(if rounds[attempt - 1].reply.NoAnswer? then TimedOut(attempt) else Rejected(attempt))
      {
        var round := rounds[attempt];
        assert round.Possible();
        BudgetGrows(attempt, retries);
        if round.cancelled {
          return Publication(Some(Cancelled), attempt, elapsed);
        }
        if attempt > 0 {
          if round.cancelledInPause.Some? {
            return Publication(Some(Cancelled), attempt, elapsed + round.cancelledInPause.value);
          }
          elapsed := elapsed + RETRY_DELAY;
        }
        replies := replies + [round.reply];
        assert Replies(rounds[..attempt + 1]) == Replies(rounds[..attempt]) + [round.reply];
        elapsed := elapsed + round.took;
        match round.reply {
          case NoAnswer => error := Some(TimedOut(attempt + 1));
          case Refused => error := Some(Rejected(attempt + 1));
          case Accepted => return Publication(None, attempt + 1, elapsed);
        }
      }
      return Publication(error, retries + 1, elapsed);
    }
  }

  lemma BudgetGrows(attempt: nat, retries: nat)
    requires attempt <= retries
    ensures attempt > 0 ==>
              attempt * PUBLISH_TIMEOUT + attempt * RETRY_DELAY <= (retries + 1) * PUBLISH_TIMEOUT + retries * RETRY_DELAY
    ensures (attempt + 1) * PUBLISH_TIMEOUT + attempt * RETRY_DELAY <= (retries + 1) * PUBLISH_TIMEOUT + retries * RETRY_DELAY
  {
  }

  /** The time one publication can take: two attempts and the pause between them. */
  const LONGEST: nat := (PUBLISH_RETRIES + 1) * PUBLISH_TIMEOUT + PUBLISH_RETRIES * RETRY_DELAY
}
