// Mail delivery with retries (backend/config/email.js): a bounded loop of
// send attempts with exponential back-off between them, and the subject
// lines of the order mails. The mail service is abstracted as the outcome
// each attempt would have; waiting is recorded, not performed.
module Email {
  import opened Results
  import opened Strings

  /** What one call to the mail service does: it resolves with a result or rejects with an error. */
  datatype SendOutcome = Sent(result: string) | Failed(error: string)

  /** How `sendEmailWithRetry` settles: with a result, by throwing, or with `undefined` when no attempt is allowed. */
  datatype Delivery = Delivered(result: string) | Thrown(error: string) | NoAttempt

  const DefaultMaxRetries: int := 3

  function Pow2(n: nat): (p: nat)
    ensures p >= 1
  {
    if n == 0 then 1 else 2 * Pow2(n - 1)
  }

  /** The wait after failed attempt `attempt` (counted from 1): 2^(attempt - 1) seconds, in milliseconds. */
  function Delay(attempt: nat): nat
    requires attempt >= 1
  {
    Pow2(attempt - 1) * 1000
  }

  /** The waits after the first `n` failed attempts, in order. */
  function Backoff(n: nat): (w: seq<nat>)
    ensures |w| == n
    ensures forall i :: 0 <= i < n ==> w[i] == Delay(i + 1)
  {
    if n == 0 then [] else Backoff(n - 1) + [Delay(n)]
  }

  /** The index of the first successful attempt among the first `n`, if any. */
  function FirstSent(outcomes: seq<SendOutcome>, n: nat): (k: Option<nat>)
    requires n <= |outcomes|
    ensures k.Some? ==> k.value < n && outcomes[k.value].Sent?
    ensures k.Some? ==> forall j :: 0 <= j < k.value ==> outcomes[j].Failed?
    ensures k.None? <==> forall j :: 0 <= j < n ==> outcomes[j].Failed?
  {
    if n == 0 then None
    else match FirstSent(outcomes, n - 1)
      case Some(k) => Some(k)
      case None => if outcomes[n - 1].Sent? then Some(n - 1) else None
  }

  /**
   * sendEmailWithRetry: attempt k (from 1) sends; the first success is
   * returned at once; a failure of attempt `maxRetries` is rethrown at once;
   * any earlier failure is followed by a wait of Delay(k). `outcomes[k - 1]`
   * is what attempt k meets.
   */
  method SendWithRetry(outcomes: seq<SendOutcome>, maxRetries: int) returns (r: Delivery, attempts: nat, waits: seq<nat>)
    requires maxRetries <= |outcomes|
    ensures maxRetries < 1 ==> r == NoAttempt && attempts == 0 && waits == []
    ensures maxRetries >= 1 && FirstSent(outcomes, maxRetries).Some? ==>
      var k := FirstSent(outcomes, maxRetries).value;
      r == Delivered(outcomes[k].result) && attempts == k + 1 && waits == Backoff(k)
    ensures maxRetries >= 1 && FirstSent(outcomes, maxRetries).None? ==>
      r == Thrown(outcomes[maxRetries - 1].error) && attempts == maxRetries && waits == Backoff(maxRetries - 1)
  {
    attempts := 0;
    waits := [];
    var attempt := 1;
    while attempt <= maxRetries
      invariant 1 <= attempt && (if maxRetries >= 1 then attempt <= maxRetries else attempt == 1)
      invariant attempts == attempt - 1
      invariant forall j :: 0 <= j < attempt - 1 ==> outcomes[j].Failed?
      invariant waits == Backoff(attempt - 1)
      decreases maxRetries - attempt
    {
      attempts := attempt;
      var outcome := outcomes[attempt - 1];
      if outcome.Sent? {
        assert FirstSent(outcomes, maxRetries) == Some(attempt - 1);
        return Delivered(outcome.result), attempts, waits;
      }
      if attempt == maxRetries {
        return Thrown(outcome.error), attempts, waits;
      }
      waits := waits + [Delay(attempt)];
      attempt := attempt + 1;
    }
    r := NoAttempt;
  }

  /**
   * With the default of three attempts, every wait is 1000 or 2000 ms: the
   * 4000 ms step of the doubling schedule is never reached.
   */
  lemma DefaultWaits(k: nat)
    requires k <= DefaultMaxRetries - 1
    ensures Backoff(k) == [1000, 2000][..k]
  {
    assert Backoff(1) == [1000];
    assert Backoff(2) == [1000, 2000];
  }

  /** Back-off waits double from one attempt to the next. */
  lemma BackoffDoubles(n: nat)
    ensures forall i :: 0 <= i < n - 1 ==> Backoff(n)[i + 1] == 2 * Backoff(n)[i]
    ensures n >= 1 ==> Backoff(n)[0] == 1000
  {
  }

  /** The subject of the customer's confirmation mail: the order id shortened to its last six characters. */
  function ConfirmationSubject(orderId: string): string {
    "Order Confirmation - #" + LastChars(orderId, 6)
  }

  /** The subject of the administrator's notification mail. */
  function AdminSubject(orderId: string): string {
    "New Order Received - #" + LastChars(orderId, 6)
  }

  /**
   * Each subject ends with the id's last six characters (all of it when
   * shorter); ids that agree on those six characters get the same subjects.
   */
  lemma SubjectsEndWithTail(a: string, b: string)
    ensures var tail := LastChars(a, 6);
      && ConfirmationSubject(a)[|ConfirmationSubject(a)| - |tail|..] == tail
      && AdminSubject(a)[|AdminSubject(a)| - |tail|..] == tail
      && |tail| == (if |a| < 6 then |a| else 6)
      && a[|a| - |tail|..] == tail
    ensures |a| >= 6 && |b| >= 6 && a[|a| - 6..] == b[|b| - 6..] ==>
      ConfirmationSubject(a) == ConfirmationSubject(b) && AdminSubject(a) == AdminSubject(b)
  {
  }
}
