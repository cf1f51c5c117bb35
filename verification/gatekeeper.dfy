/**
 * The contact form's submit handler: rate-limit check, then the field rules
 * in a fixed order (first failure wins), then record the attempt and send
 * with the submit button held busy until the send settles.
 */
module Gatekeeper {
  import opened Wrappers
  import opened JsText
  import opened Validators
  import opened RateLimiting

  datatype Outcome = RateLimited | MissingField | BadName | BadEmail | BadMessageLength | Accepted

  const MinMessageLength := 10
  const MaxMessageLength := 1000

  /** The raw values `FormData.get` returns for the three fields (`None` when absent). */
  datatype Fields = Fields(name: Option<string>, email: Option<string>, message: Option<string>)

  /** `formData.get(f)?.trim()`. */
  function TrimField(f: Option<string>): Option<string> {
    match f
    case None => None
    case Some(s) => Some(Trim(s))
  }

  /** The falsiness test `!f` on a trimmed field: absent, or the empty string. */
  predicate Blank(f: Option<string>) {
    f.None? || f.value == []
  }

  /** A field that is present and not blank once trimmed. */
  predicate Filled(f: Option<string>) {
    f.Some? && !AllWhitespace(f.value)
  }

  /** The length rule on the trimmed message, in UTF-16 code units. */
  predicate MessageLengthOk(m: string) {
    MinMessageLength <= Utf16Length(m) <= MaxMessageLength
  }

  /** The field rules, in the handler's order, on the trimmed fields. */
  function Validate(f: Fields): (o: Outcome)
    ensures o != RateLimited
  {
    var name, email, message := TrimField(f.name), TrimField(f.email), TrimField(f.message);
    if Blank(name) || Blank(email) || Blank(message) then MissingField
    else if !ValidName(name.value) then BadName
    else if !ValidEmail(email.value) then BadEmail
    else if !MessageLengthOk(message.value) then BadMessageLength
    else Accepted
  }

  /**
   * The field rules report the first failure in the handler's order: a
   * missing or blank field, then the name, then the email, then the message
   * length; with none failing, the fields are accepted.
   */
  lemma ValidateFirstFailure(f: Fields)
    ensures Validate(f) == MissingField <==> !(Filled(f.name) && Filled(f.email) && Filled(f.message))
    ensures Validate(f) == BadName <==>
      Filled(f.name) && Filled(f.email) && Filled(f.message) && !ValidName(Trim(f.name.value))
    ensures Validate(f) == BadEmail <==>
      Filled(f.name) && Filled(f.email) && Filled(f.message)
      && ValidName(Trim(f.name.value)) && !ValidEmail(Trim(f.email.value))
    ensures Validate(f) == BadMessageLength <==>
      Filled(f.name) && Filled(f.email) && Filled(f.message)
      && ValidName(Trim(f.name.value)) && ValidEmail(Trim(f.email.value))
      && !MessageLengthOk(Trim(f.message.value))
    ensures Validate(f) == Accepted <==>
      Filled(f.name) && Filled(f.email) && Filled(f.message)
      && ValidName(Trim(f.name.value)) && ValidEmail(Trim(f.email.value))
      && MessageLengthOk(Trim(f.message.value))
  {
  }

  /** The verdict on one submission, and the limiter fields it leaves behind. */
  datatype Decision = Decision(outcome: Outcome, window: Window)

  /**
   * One run of the submit handler up to the send. Rejections leave the
   * limiter exactly as the rate-limit check left it; acceptance records once.
   */
  function Decide(w: Window, now: int, f: Fields): (d: Decision)
    ensures d.outcome == RateLimited <==> !Allows(Refreshed(w, now))
    ensures d.outcome != Accepted ==> d.window == Refreshed(w, now)
    ensures d.outcome == Accepted ==>
      d.window.attempts == Refreshed(w, now).attempts + 1 && d.window.lastAttempt == now
    ensures w.attempts <= MaxAttempts ==> d.window.attempts <= MaxAttempts
  {
    var r := Refreshed(w, now);
    if !Allows(r) then Decision(RateLimited, r)
    else
      var o := Validate(f);
      Decision(o, if o == Accepted then Recorded(r, now) else r)
  }

  // ------------------------------------------------------ the rule chain

  /** A submission is accepted exactly when the limiter allows it and every field rule holds. */
  lemma AcceptedIffAllRulesPass(w: Window, now: int, f: Fields)
    ensures Decide(w, now, f).outcome == Accepted <==>
      && Allows(Refreshed(w, now))
      && Filled(f.name) && Filled(f.email) && Filled(f.message)
      && ValidName(Trim(f.name.value))
      && ValidEmail(Trim(f.email.value))
      && MessageLengthOk(Trim(f.message.value))
  {
  }

  /** The rate limit comes first: a denied submission is `RateLimited` whatever its fields. */
  lemma RateLimitComesFirst(w: Window, now: int, f: Fields, g: Fields)
    ensures Decide(w, now, f).outcome == RateLimited <==> Decide(w, now, g).outcome == RateLimited
  {
  }

  /** A missing or blank field is reported before any pattern is checked. */
  lemma MissingFieldBeforePatterns(w: Window, now: int, f: Fields)
    requires Allows(Refreshed(w, now))
    ensures Decide(w, now, f).outcome == MissingField <==>
      !(Filled(f.name) && Filled(f.email) && Filled(f.message))
  {
  }

  /**
   * Once every field is present, the patterns are tried in the handler's
   * order and the first failure is reported: the name, then the email, then
   * the message length.
   */
  lemma PatternsInOrder(w: Window, now: int, f: Fields)
    requires Allows(Refreshed(w, now))
    requires Filled(f.name) && Filled(f.email) && Filled(f.message)
    ensures var o := Decide(w, now, f).outcome;
      && (o == BadName <==> !ValidName(Trim(f.name.value)))
      && (o == BadEmail <==> ValidName(Trim(f.name.value)) && !ValidEmail(Trim(f.email.value)))
      && (o == BadMessageLength <==>
            ValidName(Trim(f.name.value)) && ValidEmail(Trim(f.email.value))
            && !MessageLengthOk(Trim(f.message.value)))
  {
  }

  /** With name and email valid, only the message length decides: 10 and 1000 pass, 9 and 1001 fail. */
  lemma MessageLengthBoundary(w: Window, now: int, name: string, email: string, message: string)
    requires Allows(Refreshed(w, now))
    requires ValidName(Trim(name)) && ValidEmail(Trim(email))
    requires Trim(message) != []
    ensures var o := Decide(w, now, Fields(Some(name), Some(email), Some(message))).outcome;
      && (o == Accepted <==> 10 <= Utf16Length(Trim(message)) <= 1000)
      && (o != Accepted ==> o == BadMessageLength)
  {
    var f := Fields(Some(name), Some(email), Some(message));
    assert TrimField(f.name) == Some(Trim(name)) && TrimField(f.email) == Some(Trim(email));
    assert TrimField(f.message) == Some(Trim(message));
  }

  /** An empty message is a missing field, and the attempt counter is not advanced. */
  lemma EmptyMessageNotCounted(w: Window, now: int, name: Option<string>, email: Option<string>)
    requires Allows(Refreshed(w, now))
    ensures var d := Decide(w, now, Fields(name, email, Some("")));
      d.outcome == MissingField && d.window.attempts == Refreshed(w, now).attempts
  {
    assert AllWhitespace("");
  }

  // ------------------------------------------------- runs of submissions

  /** One submission: the clock reading when the handler runs and the raw fields. */
  datatype Submission = Submission(time: int, fields: Fields)

  datatype Trace = Trace(outcomes: seq<Outcome>, final: Window)

  /** A page session: the handler run on each submission in turn. */
  function Run(w: Window, subs: seq<Submission>): (t: Trace)
    ensures |t.outcomes| == |subs|
    decreases |subs|
  {
    if subs == [] then Trace([], w)
    else
      var d := Decide(w, subs[0].time, subs[0].fields);
      var rest := Run(d.window, subs[1..]);
      Trace([d.outcome] + rest.outcomes, rest.final)
  }

  function AcceptedCount(os: seq<Outcome>): (n: nat)
    ensures n <= |os|
  {
    if os == [] then 0 else (if os[0] == Accepted then 1 else 0) + AcceptedCount(os[1..])
  }

  predicate WithinWindow(subs: seq<Submission>, t0: int) {
    forall i | 0 <= i < |subs| :: t0 <= subs[i].time <= t0 + CooldownMs
  }

  /** Every field rule passes. */
  predicate WellFormed(f: Fields) {
    Validate(f) == Accepted
  }

  /** On well-formed fields only the limiter decides. */
  lemma DecideWellFormed(w: Window, now: int, f: Fields)
    requires WellFormed(f)
    ensures var r := Refreshed(w, now);
      Decide(w, now, f) == if Allows(r) then Decision(Accepted, Recorded(r, now)) else Decision(RateLimited, r)
  {
  }

  /** A step of a run: the first verdict, then the run from the state it leaves. */
  lemma RunStep(w: Window, subs: seq<Submission>)
    requires subs != []
    ensures var d := Decide(w, subs[0].time, subs[0].fields);
      var t, rest := Run(w, subs), Run(d.window, subs[1..]);
      && t.final == rest.final
      && t.outcomes[0] == d.outcome
      && t.outcomes[1..] == rest.outcomes
      && AcceptedCount(t.outcomes) == (if d.outcome == Accepted then 1 else 0) + AcceptedCount(rest.outcomes)
  {
  }

  lemma WithinWindowTail(subs: seq<Submission>, t0: int)
    requires subs != [] && WithinWindow(subs, t0)
    ensures WithinWindow(subs[1..], t0)
  {
    forall i | 0 <= i < |subs| - 1 ensures t0 <= subs[1..][i].time <= t0 + CooldownMs {
      assert subs[1..][i] == subs[i + 1];
    }
  }

  /**
   * While every clock reading stays within `CooldownMs` of `t0` and the last
   * recorded attempt is no earlier than `t0` (or nothing is counted yet),
   * the counter is never cleared: it grows by one per accepted submission,
   * so at most `MaxAttempts - attempts` more are accepted.
   */
  lemma {:induction false} WindowBudget(w: Window, subs: seq<Submission>, t0: int)
    requires w.attempts <= MaxAttempts
    requires w.attempts == 0 || w.lastAttempt >= t0
    requires WithinWindow(subs, t0)
    ensures Run(w, subs).final.attempts == w.attempts + AcceptedCount(Run(w, subs).outcomes)
    ensures AcceptedCount(Run(w, subs).outcomes) <= MaxAttempts - w.attempts
    decreases |subs|
  {
    if subs != [] {
      var d := Decide(w, subs[0].time, subs[0].fields);
      assert t0 <= subs[0].time <= t0 + CooldownMs;
      WithinWindowTail(subs, t0);
      WindowBudget(d.window, subs[1..], t0);
      RunStep(w, subs);
    }
  }

  /** From page load, no window of `CooldownMs` lets more than `MaxAttempts` submissions through. */
  lemma FreshPageBudget(subs: seq<Submission>, t0: int)
    requires WithinWindow(subs, t0)
    ensures AcceptedCount(Run(Initial, subs).outcomes) <= MaxAttempts
  {
    WindowBudget(Initial, subs, t0);
  }

  lemma AllWellFormedTail(subs: seq<Submission>)
    requires subs != [] && forall i | 0 <= i < |subs| :: WellFormed(subs[i].fields)
    ensures forall i | 0 <= i < |subs| - 1 :: WellFormed(subs[1..][i].fields)
  {
    forall i | 0 <= i < |subs| - 1 ensures WellFormed(subs[1..][i].fields) {
      assert subs[1..][i] == subs[i + 1];
    }
  }

  /** One well-formed submission inside the window: no clearing, so only the count decides. */
  lemma WellFormedStep(w: Window, sub: Submission, t0: int)
    requires w.lastAttempt >= t0 && t0 <= sub.time <= t0 + CooldownMs
    requires WellFormed(sub.fields)
    ensures var d := Decide(w, sub.time, sub.fields);
      && d.outcome == (if w.attempts < MaxAttempts then Accepted else RateLimited)
      && d.window.attempts == (if w.attempts < MaxAttempts then w.attempts + 1 else w.attempts)
      && d.window.lastAttempt >= t0
  {
    DecideWellFormed(w, sub.time, sub.fields);
  }

  /**
   * Well-formed submissions inside the window: the i-th is accepted exactly
   * while fewer than `MaxAttempts` are counted, and rate-limited after that.
   */
  lemma {:induction false} WellFormedRun(w: Window, subs: seq<Submission>, t0: int)
    requires w.lastAttempt >= t0
    requires WithinWindow(subs, t0)
    requires forall i | 0 <= i < |subs| :: WellFormed(subs[i].fields)
    ensures forall i | 0 <= i < |subs| ::
      Run(w, subs).outcomes[i] == if w.attempts + i < MaxAttempts then Accepted else RateLimited
    decreases |subs|
  {
    if subs != [] {
      var d := Decide(w, subs[0].time, subs[0].fields);
      WellFormedStep(w, subs[0], t0);
      WithinWindowTail(subs, t0);
      AllWellFormedTail(subs);
      WellFormedRun(d.window, subs[1..], t0);
      RunStep(w, subs);
      var t, rest := Run(w, subs), Run(d.window, subs[1..]);
      forall i | 1 <= i < |subs|
        ensures t.outcomes[i] == if w.attempts + i < MaxAttempts then Accepted else RateLimited
      {
        assert t.outcomes[i] == rest.outcomes[i - 1];
      }
    }
  }

  /**
   * From page load, well-formed submissions all made within `CooldownMs` of
   * the first one: the first `MaxAttempts` (three) are accepted and every later
   * one is rate-limited.
   */
  lemma {:induction false} ExactlyMaxAttemptsAccepted(subs: seq<Submission>)
    requires subs != []
    requires WithinWindow(subs, subs[0].time)
    requires forall i | 0 <= i < |subs| :: WellFormed(subs[i].fields)
    ensures forall i | 0 <= i < |subs| ::
      Run(Initial, subs).outcomes[i] == if i < MaxAttempts then Accepted else RateLimited
  {
    var t0 := subs[0].time;
    var d := Decide(Initial, t0, subs[0].fields);
    DecideWellFormed(Initial, t0, subs[0].fields);
    assert d == Decision(Accepted, Window(1, t0));
    WithinWindowTail(subs, t0);
    AllWellFormedTail(subs);
    WellFormedRun(d.window, subs[1..], t0);
    RunStep(Initial, subs);
    var t, rest := Run(Initial, subs), Run(d.window, subs[1..]);
    forall i | 1 <= i < |subs|
      ensures t.outcomes[i] == if i < MaxAttempts then Accepted else RateLimited
    {
      assert t.outcomes[i] == rest.outcomes[i - 1];
    }
  }

  // ------------------------------------------------ the handler itself

  /** What `showMessage` is asked to display. */
  datatype Notice = Notice(text: string, isError: bool)

  /** The message shown for each outcome; an accepted submission's depends on whether the send went through. */
  function NoticeFor(o: Outcome, delivered: bool): (n: Notice)
    ensures n.isError <==> !(o == Accepted && delivered)
  {
    match o
    case RateLimited => Notice("Too many attempts. Please wait before trying again.", true)
    case MissingField => Notice("Please fill in all fields.", true)
    case BadName => Notice("Please enter a valid name (2-50 characters, letters only).", true)
    case BadEmail => Notice("Please enter a valid email address.", true)
    case BadMessageLength => Notice("Message must be between 10 and 1000 characters.", true)
    case Accepted =>
      if delivered then Notice("Thank you for your message! I will get back to you soon.", false)
      else Notice("Something went wrong. Please try again later.", true)
  }

  /** The submit button; `busy` stands for its dimmed, click-blocking, spinner state. */
  class SubmitButton {
    var busy: bool

    constructor ()
      ensures !busy
    {
      busy := false;
    }
  }

  /**
   * The stand-in for the network call (a two-second timer in the page):
   * whether it goes through is the caller's choice. It may only run while
   * the button is busy.
   */
  method SimulatedSend(button: SubmitButton, succeeds: bool) returns (delivered: bool)
    requires button.busy
    ensures delivered == succeeds
  {
    delivered := succeeds;
  }

  /**
   * The `submit` listener of the contact form, with the limiter injected.
   * Early returns leave the button alone; an accepted submission is recorded
   * once, sent while the button is busy, and the button is released whether
   * or not the send succeeds.
   */
  method HandleSubmit(limiter: RateLimiter, button: SubmitButton, now: int, f: Fields, sendOk: bool)
    returns (outcome: Outcome, notice: Notice, formReset: bool)
    modifies limiter, button
    ensures Decision(outcome, limiter.State()) == Decide(old(limiter.State()), now, f)
    ensures notice == NoticeFor(outcome, sendOk)
    ensures formReset <==> outcome == Accepted && sendOk
    ensures outcome == Accepted ==> !button.busy
    ensures outcome != Accepted ==> button.busy == old(button.busy)
  {
    formReset := false;
    var allowed := limiter.CanSubmit(now);
    if !allowed {
      outcome := RateLimited;
      notice := NoticeFor(outcome, sendOk);
      return;
    }

    var name, email, message := TrimField(f.name), TrimField(f.email), TrimField(f.message);
    if Blank(name) || Blank(email) || Blank(message) {
      outcome := MissingField;
    } else if !ValidName(name.value) {
      outcome := BadName;
    } else if !ValidEmail(email.value) {
      outcome := BadEmail;
    } else if Utf16Length(message.value) < MinMessageLength || Utf16Length(message.value) > MaxMessageLength {
      outcome := BadMessageLength;
    } else {
      outcome := Accepted;
    }
    if outcome != Accepted {
      notice := NoticeFor(outcome, sendOk);
      return;
    }

    limiter.RecordAttempt(now);
    button.busy := true;
    var delivered := SimulatedSend(button, sendOk);
    notice := NoticeFor(Accepted, delivered);
    formReset := delivered;
    button.busy := false;
  }

  /**
   * A page session of four submissions of the same well-formed form, one
   * second apart: three are accepted (the third even though its send fails,
   * since the attempt is recorded before sending), the fourth is rate-limited,
   * and the button is free afterwards.
   */
  method ThreeThenRateLimited(f: Fields, t: int) returns (outcomes: seq<Outcome>, busyAfter: bool)
    requires WellFormed(f)
    ensures outcomes == [Accepted, Accepted, Accepted, RateLimited]
    ensures !busyAfter
  {
    var limiter := new RateLimiter();
    var button := new SubmitButton();
    DecideWellFormed(limiter.State(), t, f);
    var o1, n1, r1 := HandleSubmit(limiter, button, t, f, true);
    DecideWellFormed(limiter.State(), t + 1000, f);
    var o2, n2, r2 := HandleSubmit(limiter, button, t + 1000, f, true);
    DecideWellFormed(limiter.State(), t + 2000, f);
    var o3, n3, r3 := HandleSubmit(limiter, button, t + 2000, f, false);
    DecideWellFormed(limiter.State(), t + 3000, f);
    var o4, n4, r4 := HandleSubmit(limiter, button, t + 3000, f, true);
    outcomes := [o1, o2, o3, o4];
    busyAfter := button.busy;
  }
}
