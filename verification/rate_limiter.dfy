/**
 * `SecurityUtils.rateLimiter`: a fixed-window counter of accepted form
 * submissions. `Date.now()` becomes an explicit `now` argument (milliseconds).
 */
module RateLimiting {

  /** `maxAttempts`: accepted submissions allowed per window. */
  const MaxAttempts: nat := 3
  /** `cooldown`: milliseconds after the last recorded attempt before the counter is cleared. */
  const CooldownMs: int := 60000

  /** The limiter's two mutable fields. */
  datatype Window = Window(attempts: nat, lastAttempt: int)

  /** The fields as the page script initialises them. */
  const Initial: Window := Window(0, 0)

  /**
   * The fields as `canSubmit` leaves them: once more than `CooldownMs` has
   * passed since the last recorded attempt the counter is cleared; nothing
   * else ever changes, and the counter never grows.
   */
  function Refreshed(w: Window, now: int): (r: Window)
    ensures r.lastAttempt == w.lastAttempt
    ensures r.attempts <= w.attempts
    ensures now - w.lastAttempt > CooldownMs ==> r.attempts == 0
    ensures now - w.lastAttempt <= CooldownMs ==> r == w
  {
    if now - w.lastAttempt > CooldownMs then w.(attempts := 0) else w
  }

  /** The answer `canSubmit` gives, read on the refreshed fields. */
  predicate Allows(w: Window) {
    w.attempts < MaxAttempts
  }

  /**
   * `canSubmit`'s answer in terms of the fields it was called on: yes once
   * the cooldown has run out, otherwise yes exactly while fewer than
   * `MaxAttempts` attempts are recorded.
   */
  function CanSubmitAnswer(w: Window, now: int): (ok: bool)
    ensures ok <==> now - w.lastAttempt > CooldownMs || w.attempts < MaxAttempts
  {
    Allows(Refreshed(w, now))
  }

  /**
   * The fields as `recordAttempt` leaves them: one more attempt, stamped now.
   * The stamp opens a new window, so a check at the same instant clears
   * nothing, and a record after an allowed check stays within the budget.
   */
  function Recorded(w: Window, now: int): (r: Window)
    ensures r.attempts == w.attempts + 1 && r.lastAttempt == now
    ensures Refreshed(r, now) == r
    ensures Allows(w) <==> r.attempts <= MaxAttempts
  {
    Window(w.attempts + 1, now)
  }

  /** `canSubmit` answers yes once the cooldown has run out, whatever the count was. */
  lemma ExpiredWindowAllows(w: Window, now: int)
    requires now - w.lastAttempt > CooldownMs
    ensures Allows(Refreshed(w, now)) && Refreshed(w, now) == Window(0, w.lastAttempt)
  {
  }

  /** Within the cooldown, `canSubmit` answers exactly "fewer than `MaxAttempts` recorded". */
  lemma LiveWindowDecides(w: Window, now: int)
    requires now - w.lastAttempt <= CooldownMs
    ensures Allows(Refreshed(w, now)) <==> w.attempts < MaxAttempts
  {
  }

  /** Asking twice at the same instant is asking once: the check consumes nothing. */
  lemma RefreshedIdempotent(w: Window, now: int)
    ensures Refreshed(Refreshed(w, now), now) == Refreshed(w, now)
  {
  }

  /** A counter that starts within the limit stays within it through check-then-record. */
  lemma RecordAfterAllowStaysBounded(w: Window, now: int)
    requires Allows(Refreshed(w, now))
    ensures Recorded(Refreshed(w, now), now).attempts <= MaxAttempts
  {
  }

  /** The limiter object itself, updated in place by its two methods. */
  class RateLimiter {
    var attempts: nat
    var lastAttempt: int

    /** The fields as a value. */
    function State(): Window
      reads this
    {
      Window(attempts, lastAttempt)
    }

    constructor ()
      ensures State() == Initial
    {
      attempts := 0;
      lastAttempt := 0;
    }

    /** `canSubmit`: clears an expired counter, then answers whether another submission may go ahead. */
    method CanSubmit(now: int) returns (ok: bool)
      modifies this
      ensures State() == Refreshed(old(State()), now)
      ensures lastAttempt == old(lastAttempt) && attempts <= old(attempts)
      ensures ok <==> Allows(State())
      ensures ok == CanSubmitAnswer(old(State()), now)
    {
      if now - lastAttempt > CooldownMs {
        attempts := 0;
      }
      ok := attempts < MaxAttempts;
    }

    /** `recordAttempt`: counts one accepted submission and stamps its time. */
    method RecordAttempt(now: int)
      modifies this
      ensures State() == Recorded(old(State()), now)
      ensures attempts == old(attempts) + 1 && lastAttempt == now
    {
      attempts := attempts + 1;
      lastAttempt := now;
    }
  }
}
