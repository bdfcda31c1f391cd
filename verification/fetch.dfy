/** `fetch_with_retry` with its network calls replaced by the sequence of
    their outcomes, and the word lookup that runs extraction on the page it
    returns. */
module Fetch {
  import opened Wrappers
  import opened Extraction

  /** What one `requests.get` call did: it returned a response, whatever its
      HTTP status, or it raised a transport-level exception. */
  datatype Attempt<R> = Responded(response: R) | TransportError

  /** A run of the retry loop: the response it returned (`None` when it
      raised), the seconds it slept, in order, and how many attempts it
      made. */
  datatype FetchRun<R> = FetchRun(result: Option<R>, sleeps: seq<nat>, attempts: nat)

  /** The default `max_retries`. */
  const DefaultMaxRetries := 3

  function Pow2(k: nat): (r: nat)
    ensures r >= 1
  {
    if k == 0 then 1 else 2 * Pow2(k - 1)
  }

  /** The sleeps after failed attempts `lo` .. `hi - 1`: `2^lo`, ..., `2^(hi-1)`. */
  function Backoff(lo: nat, hi: nat): (r: seq<nat>)
    requires lo <= hi
    ensures |r| == hi - lo
    ensures forall j :: 0 <= j < |r| ==> r[j] == Pow2(lo + j)
    decreases hi - lo
  {
    if lo == hi then [] else [Pow2(lo)] + Backoff(lo + 1, hi)
  }

  /** The loop from attempt `k` on: attempt `k` reads `outcomes[k]`; a
      response is returned at once; a transport error is followed by a
      sleep of `2^k` seconds unless it was the last attempt. Every run makes
      at least one attempt per sleep plus one, so it never sleeps after its
      final attempt. */
  function RetryFrom<R>(outcomes: seq<Attempt<R>>, maxRetries: int, k: nat): (r: FetchRun<R>)
    requires maxRetries <= |outcomes|
    ensures r.attempts <= (if maxRetries > k then maxRetries - k else 0)
    ensures r.attempts == 0 ==> r.result.None? && r.sleeps == []
    ensures r.attempts > 0 ==> |r.sleeps| == r.attempts - 1
    decreases maxRetries - k
  {
    if k >= maxRetries then FetchRun(None, [], 0)
    else
      match outcomes[k]
      case Responded(resp) => FetchRun(Some(resp), [], 1)
      case TransportError =>
        var rest := RetryFrom(outcomes, maxRetries, k + 1);
        var pause := if k < maxRetries - 1 then [Pow2(k)] else [];
        FetchRun(rest.result, pause + rest.sleeps, rest.attempts + 1)
  }

  /** `fetch_with_retry(url, max_retries)`, one outcome per attempt. */
  function FetchWithRetry<R>(outcomes: seq<Attempt<R>>, maxRetries: int): FetchRun<R>
    requires maxRetries <= |outcomes|
  {
    RetryFrom(outcomes, maxRetries, 0)
  }

  lemma {:induction false} RetryFromSucceeds<R>(outcomes: seq<Attempt<R>>, maxRetries: int, k: nat, i: nat)
    requires maxRetries <= |outcomes|
    requires k <= i < maxRetries && outcomes[i].Responded?
    requires forall j :: k <= j < i ==> outcomes[j].TransportError?
    ensures RetryFrom(outcomes, maxRetries, k)
            == FetchRun(Some(outcomes[i].response), Backoff(k, i), i + 1 - k)
    decreases i - k
  {
    if k < i {
      RetryFromSucceeds(outcomes, maxRetries, k + 1, i);
      assert [Pow2(k)] + Backoff(k + 1, i) == Backoff(k, i);
    } else {
      assert Backoff(k, i) == [];
    }
  }

  /** The first attempt that gets a response decides the result, whatever
      its status: its response is returned after `i + 1` attempts and the
      sleeps `1, 2, ..., 2^(i-1)`. */
  lemma RetrySucceeds<R>(outcomes: seq<Attempt<R>>, maxRetries: int, i: nat)
    requires maxRetries <= |outcomes|
    requires i < maxRetries && outcomes[i].Responded?
    requires forall j :: 0 <= j < i ==> outcomes[j].TransportError?
    ensures FetchWithRetry(outcomes, maxRetries)
            == FetchRun(Some(outcomes[i].response), Backoff(0, i), i + 1)
  {
    RetryFromSucceeds(outcomes, maxRetries, 0, i);
  }

  lemma {:induction false} RetryFromExhausted<R>(outcomes: seq<Attempt<R>>, maxRetries: int, k: nat)
    requires maxRetries <= |outcomes| && k <= maxRetries
    requires forall j :: k <= j < maxRetries ==> outcomes[j].TransportError?
    ensures RetryFrom(outcomes, maxRetries, k)
            == FetchRun(None, if k < maxRetries then Backoff(k, maxRetries - 1) else [], maxRetries - k)
    decreases maxRetries - k
  {
    if k < maxRetries {
      RetryFromExhausted(outcomes, maxRetries, k + 1);
      if k < maxRetries - 1 {
        assert [Pow2(k)] + Backoff(k + 1, maxRetries - 1) == Backoff(k, maxRetries - 1);
      } else {
        assert Backoff(k, maxRetries - 1) == [];
      }
    }
  }

  /** When every attempt raises, the loop makes exactly `max_retries`
      attempts, sleeps `2^k` after each failed attempt but the last, and
      then raises. */
  lemma RetryExhausted<R>(outcomes: seq<Attempt<R>>, maxRetries: nat)
    requires 0 < maxRetries <= |outcomes|
    requires forall j :: 0 <= j < maxRetries ==> outcomes[j].TransportError?
    ensures FetchWithRetry(outcomes, maxRetries)
            == FetchRun(None, Backoff(0, maxRetries - 1), maxRetries)
  {
    RetryFromExhausted(outcomes, maxRetries, 0);
  }

  /** With the default three attempts all failing, the sleeps are 1 and 2
      seconds: there is no sleep of 4. */
  lemma DefaultScheduleAllFail<R>(outcomes: seq<Attempt<R>>)
    requires DefaultMaxRetries <= |outcomes|
    requires forall j :: 0 <= j < DefaultMaxRetries ==> outcomes[j].TransportError?
    ensures FetchWithRetry(outcomes, DefaultMaxRetries) == FetchRun(None, [1, 2], 3)
  {
    RetryExhausted(outcomes, DefaultMaxRetries);
    assert Pow2(1) == 2;
  }

  /** A non-positive `max_retries` makes no attempt and raises at once. */
  lemma NoAttempts<R>(outcomes: seq<Attempt<R>>, maxRetries: int)
    requires maxRetries <= 0
    ensures FetchWithRetry(outcomes, maxRetries) == FetchRun(None, [], 0)
  {
  }

  /** `parse_dictionary_html(word)`: fetch the page with the default retry
      bound, then extract. */
  function Lookup(outcomes: seq<Attempt<Page>>, word: string): (r: Result<WordEntry, LookupError>)
    requires DefaultMaxRetries <= |outcomes|
    ensures r == Failure(FetchFailed) <==>
              forall j :: 0 <= j < DefaultMaxRetries ==> outcomes[j].TransportError?
    ensures var i := FirstResponse(outcomes, DefaultMaxRetries);
            i < DefaultMaxRetries ==> r == Extract(outcomes[i].response, word)
  {
    var run := FetchWithRetry(outcomes, DefaultMaxRetries);
    var i := FirstResponse(outcomes, DefaultMaxRetries);
    assert run.result.None? <==> i == DefaultMaxRetries by {
      if i < DefaultMaxRetries {
        RetrySucceeds(outcomes, DefaultMaxRetries, i);
      } else {
        RetryExhausted(outcomes, DefaultMaxRetries);
      }
    }
    assert i < DefaultMaxRetries ==> run.result == Some(outcomes[i].response) by {
      if i < DefaultMaxRetries {
        RetrySucceeds(outcomes, DefaultMaxRetries, i);
      }
    }
    match run.result
    case None => Failure(FetchFailed)
    case Some(page) => Extract(page, word)
  }

  /** Index of the first attempt below `n` that got a response, `n` if none. */
  function FirstResponse<R>(outcomes: seq<Attempt<R>>, n: nat): (i: nat)
    requires n <= |outcomes|
    ensures i <= n
    ensures i < n ==> outcomes[i].Responded?
    ensures forall j :: 0 <= j < i ==> outcomes[j].TransportError?
  {
    if n == 0 then 0
    else
      var i := FirstResponse(outcomes, n - 1);
      if i < n - 1 then i
      else if outcomes[n - 1].Responded? then n - 1
      else n
  }

  /** Transport failures before a response leave no trace in the result:
      succeeding on the third attempt gives what succeeding on the first
      gives. */
  lemma LookupIgnoresEarlierFailures(page: Page, word: string, later: seq<Attempt<Page>>)
    requires |later| >= 2
    ensures Lookup([TransportError, TransportError, Responded(page)], word)
            == Lookup([Responded(page)] + later, word)
            == Extract(page, word)
  {
    var a: seq<Attempt<Page>> := [TransportError, TransportError, Responded(page)];
    var b: seq<Attempt<Page>> := [Responded(page)] + later;
    RetrySucceeds(a, DefaultMaxRetries, 2);
    RetrySucceeds(b, DefaultMaxRetries, 0);
  }
}
