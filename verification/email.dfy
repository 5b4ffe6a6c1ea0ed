/** The notification engine of src/email.ts: the state `createEmailSender`
    closes over (the time of the last successful send and one optional
    queued change), and the transitions `sendChangeNotification`,
    `flushPending` and `sendEmail` perform on it.

    The clock, the mail transport and the diff library are parameters:
    `now` is the clock read at the start of a call; the transport's outcome
    is a `Delivery`, which on success carries the clock read after the send
    completes; `diff` stands for `generateDiff`. Each call is one atomic
    step. */
module Email {

  import opened Wrappers
  import opened Strings
  import Diff

  /** A change to report (`QueuedChange` and the notification's parameters). */
  datatype Change = Change(
    to: string,
    from: string,
    subject: string,
    oldOutput: string,
    newOutput: string,
    command: string,
    cooldownMs: real)

  /** `lastEmailSentAt` (milliseconds) and `pending`. */
  datatype Engine = Engine(lastSentAt: int, pending: Option<Change>)

  /** A fresh sender: nothing sent yet, nothing queued. */
  const INITIAL: Engine := Engine(0, None)

  /** What the transport threw: an `Error` carries its message; anything
      else is reported as `String(err)`, given here already stringified. */
  datatype Thrown = ErrorObject(message: string) | OtherValue(text: string)

  /** The transport's outcome; `at` is `Date.now()` after the send. */
  datatype Delivery = Delivered(at: int) | Threw(thrown: Thrown)

  /** The e-mail handed to the transport. */
  datatype Message = Message(from: string, to: string, subject: string, html: string, text: string)

  /** `{ sent, reason? }`. */
  datatype Reply = Reply(sent: bool, reason: Option<string>)

  /** One transition: the new state, the caller's reply, and the message
      the transport was asked to send, if any. */
  datatype Step = Step(engine: Engine, reply: Reply, attempt: Option<Message>)

  /** generateDiff(oldOutput, newOutput, command). */
  type DiffFn = (string, string, string) -> string

  // =====================================================================
  // The message

  /** email.ts's own escapeHtml: unlike the one in diff.ts it leaves `"`. */
  function EscapeHtml(s: string): string {
    ReplaceAll(ReplaceAll(ReplaceAll(s, '&', "&amp;"), '<', "&lt;"), '>', "&gt;")
  }

  /** On text without `"` the two escapeHtml functions agree. */
  lemma EscapeHtmlAgrees(s: string)
    requires '"' !in s
    ensures EscapeHtml(s) == Diff.EscapeHtml(s)
  {
    var s1 := ReplaceAll(s, '&', "&amp;");
    var s2 := ReplaceAll(s1, '<', "&lt;");
    ReplaceAllExcludes(s, '&', "&amp;", '"');
    ReplaceAllExcludes(s1, '<', "&lt;", '"');
    ReplaceAllExcludes(s2, '>', "&gt;", '"');
    ReplaceAllAbsent(EscapeHtml(s), '"', "&quot;");
  }

  /** With a `"` present they differ: the quote survives here. */
  lemma EscapeHtmlKeepsQuote()
    ensures EscapeHtml("\"") == "\"" && Diff.EscapeHtml("\"") == "&quot;"
  {
    Diff.EscapeHtmlChar('"');
    ReplaceAllAbsent("\"", '&', "&amp;");
    ReplaceAllAbsent("\"", '<', "&lt;");
    ReplaceAllAbsent("\"", '>', "&gt;");
  }

  // The template, after `.trim()` has removed its leading newline, in
  // short pieces.
  const SANS: string := "font-family:sans-serif;"
  const GREY: string := "color:#586069;"
  const HEADING: string :=
    "<h2 style=\"" + SANS + "margin:0 0 16px\">" + "Change detected" + "</h2>\n"
  const COMMAND_OPEN: string := "<p style=\"" + SANS + GREY + "margin:0 0 16px\">" + "Command: <code>"
  const COMMAND_CLOSE: string := "</code></p>\n"
  const FOOTER: string :=
    "\n<p style=\"" + SANS + GREY + "font-size:12px;" + "margin:16px 0 0\">" + "Sent by watch+" + "</p>"

  function Preamble(command: string): string {
    HEADING + COMMAND_OPEN + EscapeHtml(command) + COMMAND_CLOSE
  }

  /** The message sendEmail builds: the diff text as the plain-text part,
      and the HTML page around its coloured rendering. */
  function ComposeMessage(to: string, from: string, subject: string, oldOutput: string,
                          newOutput: string, command: string, diff: DiffFn): (m: Message)
    ensures m.to == to && m.from == from && m.subject == subject
    ensures m.text == diff(oldOutput, newOutput, command)
  {
    var diffText := diff(oldOutput, newOutput, command);
    Message(from, to, subject, Preamble(command) + Diff.DiffToHtml(diffText) + FOOTER, diffText)
  }

  /** The HTML part carries the whole diff: the block between the preamble
      and the footer reads back as exactly the plain-text part. */
  lemma MessageShowsDiff(to: string, from: string, subject: string, oldOutput: string,
                         newOutput: string, command: string, diff: DiffFn)
    ensures var m := ComposeMessage(to, from, subject, oldOutput, newOutput, command, diff);
      var k := |Preamble(command)|;
      && k + |FOOTER| <= |m.html|
      && Diff.ReadHtml(m.html[k..|m.html| - |FOOTER|]) == Some(m.text)
  {
    var m := ComposeMessage(to, from, subject, oldOutput, newOutput, command, diff);
    var p := Preamble(command);
    var body := Diff.DiffToHtml(m.text);
    assert m.html == p + body + FOOTER;
    assert m.html[|p|..|m.html| - |FOOTER|] == body;
    Diff.ReadDiffToHtml(m.text);
  }

  /** A command without `&`, `<` or `>` appears verbatim in the page. */
  lemma MessageShowsCommand(command: string)
    requires '&' !in command && '<' !in command && '>' !in command
    ensures Preamble(command) == HEADING + COMMAND_OPEN + command + COMMAND_CLOSE
  {
    ReplaceAllAbsent(command, '&', "&amp;");
    ReplaceAllAbsent(command, '<', "&lt;");
    ReplaceAllAbsent(command, '>', "&gt;");
  }

  // =====================================================================
  // Transitions

  /** The reason reported for a caught exception. */
  function ReasonOf(t: Thrown): string {
    match t
    case ErrorObject(message) => message
    case OtherValue(text) => text
  }

  /** sendEmail: only a completed delivery moves the clock. The reply's
      reason on failure is the thrown error's message. */
  function SendEmail(e: Engine, to: string, from: string, subject: string, oldOutput: string,
                     newOutput: string, command: string, delivery: Delivery, diff: DiffFn)
    : (r: Step)
    ensures r.attempt == Some(ComposeMessage(to, from, subject, oldOutput, newOutput, command, diff))
    ensures r.engine.pending == e.pending
    ensures r.reply.sent <==> delivery.Delivered?
    ensures delivery.Delivered? ==> r.engine.lastSentAt == delivery.at && r.reply.reason == None
    ensures delivery.Threw? ==> r.engine == e && r.reply.reason == Some(ReasonOf(delivery.thrown))
  {
    var msg := ComposeMessage(to, from, subject, oldOutput, newOutput, command, diff);
    match delivery
    case Delivered(at) => Step(e.(lastSentAt := at), Reply(true, None), Some(msg))
    case Threw(thrown) => Step(e, Reply(false, Some(ReasonOf(thrown))), Some(msg))
  }

  /** Math.ceil on an exact real. */
  function Ceil(x: real): (n: int)
    ensures n as real >= x && (n as real) - 1.0 < x
  {
    -((-x).Floor)
  }

  /** The whole seconds left before the cooldown ends, rounded up; at least
      one whenever the change is queued. */
  function RemainingSeconds(cooldownMs: real, elapsed: int): (n: nat)
    requires (elapsed as real) < cooldownMs
    ensures n >= 1
    ensures (n as real) * 1000.0 >= cooldownMs - elapsed as real
    ensures ((n - 1) as real) * 1000.0 < cooldownMs - elapsed as real
  {
    Ceil((cooldownMs - elapsed as real) / 1000.0)
  }

  function QueuedReason(remaining: nat): string {
    "Cooldown active (" + NatToString(remaining) + "s remaining), change queued"
  }

  /** Whether a call at `now` falls inside the cooldown `cooldownMs`. */
  predicate InCooldown(e: Engine, now: int, cooldownMs: real) {
    ((now - e.lastSentAt) as real) < cooldownMs
  }

  /** sendChangeNotification. Inside the cooldown the change is queued
      (merged into a queued one by taking only its new output) and nothing
      is sent; otherwise the queue is discarded and the caller's own change
      is sent. */
  function SendChangeNotification(e: Engine, c: Change, now: int, delivery: Delivery, diff: DiffFn)
    : (r: Step)
    ensures r.attempt.None? <==> InCooldown(e, now, c.cooldownMs)
    ensures r.reply.sent <==> !InCooldown(e, now, c.cooldownMs) && delivery.Delivered?
    // Only a successful send moves the clock.
    ensures r.engine.lastSentAt != e.lastSentAt ==> r.reply.sent && delivery == Delivered(r.engine.lastSentAt)
    // Queued: a fresh change is stored whole; a queued one keeps everything
    // but its new output.
    ensures InCooldown(e, now, c.cooldownMs) ==>
      && r.engine.lastSentAt == e.lastSentAt
      && r.engine.pending == Some(if e.pending.Some? then e.pending.value.(newOutput := c.newOutput) else c)
      && r.reply == Reply(false, Some(QueuedReason(RemainingSeconds(c.cooldownMs, now - e.lastSentAt))))
    // Sent: the queue is emptied and the message is built from the caller's
    // arguments, whatever was queued.
    ensures !InCooldown(e, now, c.cooldownMs) ==>
      && r.engine.pending == None
      && r.attempt == Some(ComposeMessage(c.to, c.from, c.subject, c.oldOutput, c.newOutput, c.command, diff))
    // A completed send records the clock after the send; a failed one keeps
    // the last-send time and replies with the thrown value's text.
    ensures !InCooldown(e, now, c.cooldownMs) ==>
      && r.engine.lastSentAt == (if delivery.Delivered? then delivery.at else e.lastSentAt)
      && r.reply.reason == (if delivery.Delivered? then None else Some(ReasonOf(delivery.thrown)))
  {
    var elapsed := now - e.lastSentAt;
    if (elapsed as real) < c.cooldownMs then
      var queued := if e.pending.Some? then e.pending.value.(newOutput := c.newOutput) else c;
      var remaining := RemainingSeconds(c.cooldownMs, elapsed);
      Step(Engine(e.lastSentAt, Some(queued)), Reply(false, Some(QueuedReason(remaining))), None)
    else
      SendEmail(e.(pending := None), c.to, c.from, c.subject, c.oldOutput, c.newOutput, c.command,
                delivery, diff)
  }

  /** flushPending. Nothing queued, or the queued change's own cooldown not
      yet over: no send and no change. Otherwise the slot is emptied before
      the queued change is sent, so a failed send loses it. */
  function FlushPending(e: Engine, now: int, delivery: Delivery, diff: DiffFn): (r: Step)
    ensures e.pending.None? ==> r == Step(e, Reply(false, Some("No pending changes")), None)
    ensures e.pending.Some? && InCooldown(e, now, e.pending.value.cooldownMs) ==>
      r == Step(e, Reply(false, Some("Cooldown still active")), None)
    ensures e.pending.Some? && !InCooldown(e, now, e.pending.value.cooldownMs) ==>
      var q := e.pending.value;
      && r.engine.pending == None
      && r.attempt == Some(ComposeMessage(q.to, q.from, q.subject, q.oldOutput, q.newOutput, q.command, diff))
      && (r.reply.sent <==> delivery.Delivered?)
      && r.engine.lastSentAt == (if delivery.Delivered? then delivery.at else e.lastSentAt)
      && r.reply.reason == (if delivery.Delivered? then None else Some(ReasonOf(delivery.thrown)))
    ensures r.engine.lastSentAt != e.lastSentAt ==> r.reply.sent && delivery == Delivered(r.engine.lastSentAt)
  {
    if e.pending.None? then
      Step(e, Reply(false, Some("No pending changes")), None)
    else
      var elapsed := now - e.lastSentAt;
      var q := e.pending.value;
      if (elapsed as real) < q.cooldownMs then
        Step(e, Reply(false, Some("Cooldown still active")), None)
      else
        SendEmail(e.(pending := None), q.to, q.from, q.subject, q.oldOutput, q.newOutput, q.command,
                  delivery, diff)
  }

  /** With no cooldown, a call at or after the last send always sends. */
  lemma ZeroCooldownSends(e: Engine, c: Change, now: int, delivery: Delivery, diff: DiffFn)
    requires c.cooldownMs <= 0.0 && now >= e.lastSentAt
    ensures SendChangeNotification(e, c, now, delivery, diff).attempt.Some?
  {
  }

  // =====================================================================
  // Runs of calls

  /** One call on the sender, with the clock and the transport's outcome. */
  datatype Call = Notify(change: Change, now: int, delivery: Delivery) | Flush(at: int, outcome: Delivery)

  function Apply(e: Engine, call: Call, diff: DiffFn): Step {
    match call
    case Notify(c, now, delivery) => SendChangeNotification(e, c, now, delivery, diff)
    case Flush(now, delivery) => FlushPending(e, now, delivery, diff)
  }

  /** The final state and the messages handed to the transport, in order. */
  function Run(e: Engine, calls: seq<Call>, diff: DiffFn): (Engine, seq<Message>)
    decreases |calls|
  {
    if |calls| == 0 then (e, [])
    else
      var s := Apply(e, calls[0], diff);
      var rest := Run(s.engine, calls[1..], diff);
      (rest.0, (if s.attempt.Some? then [s.attempt.value] else []) + rest.1)
  }

  predicate IsNotify(call: Call) {
    call.Notify?
  }

  /** Every call is a notification that falls inside the cooldown of the
      state it meets (the clock never moves during such a run). */
  predicate AllQueued(e: Engine, calls: seq<Call>) {
    forall i :: 0 <= i < |calls| ==>
      calls[i].Notify? && InCooldown(e, calls[i].now, calls[i].change.cooldownMs)
  }

  /** Coalescing: changes queued one after another collapse into one that
      keeps the first queued change's fields and the last one's new output,
      and nothing is sent meanwhile. */
  lemma {:induction false} QueuedRunCoalesces(e: Engine, calls: seq<Call>, diff: DiffFn)
    requires |calls| > 0 && AllQueued(e, calls)
    ensures var first := if e.pending.Some? then e.pending.value else calls[0].change;
      Run(e, calls, diff) ==
        (Engine(e.lastSentAt, Some(first.(newOutput := calls[|calls| - 1].change.newOutput))), [])
    decreases |calls|
  {
    var s := Apply(e, calls[0], diff);
    var first := if e.pending.Some? then e.pending.value else calls[0].change;
    assert s.engine == Engine(e.lastSentAt, Some(first.(newOutput := calls[0].change.newOutput)));
    assert s.attempt.None?;
    var rest := Run(s.engine, calls[1..], diff);
    assert Run(e, calls, diff) == (rest.0, [] + rest.1);
    assert [] + rest.1 == rest.1;
    if |calls| > 1 {
      assert AllQueued(s.engine, calls[1..]) by {
        forall i | 0 <= i < |calls[1..]|
          ensures calls[1..][i].Notify? && InCooldown(s.engine, calls[1..][i].now, calls[1..][i].change.cooldownMs)
        {
          assert calls[1..][i] == calls[i + 1];
        }
      }
      QueuedRunCoalesces(s.engine, calls[1..], diff);
      var last := calls[|calls| - 1].change.newOutput;
      assert calls[1..][|calls[1..]| - 1] == calls[|calls| - 1];
      assert rest == (Engine(e.lastSentAt, Some(first.(newOutput := calls[0].change.newOutput).(newOutput := last))), []);
      assert first.(newOutput := calls[0].change.newOutput).(newOutput := last) == first.(newOutput := last);
    } else {
      assert rest == (s.engine, []);
      assert calls[|calls| - 1] == calls[0];
    }
  }

  /** In a run of notifications only (the watch loop never flushes), every
      message sent is built from the notification that triggered it: a
      queued change's contents never reach the transport. */
  lemma {:induction false} NotifyOnlySendsOwnChanges(e: Engine, calls: seq<Call>, diff: DiffFn)
    requires forall i :: 0 <= i < |calls| ==> IsNotify(calls[i])
    ensures forall m :: m in Run(e, calls, diff).1 ==>
      exists i :: 0 <= i < |calls| && calls[i].Notify? && m == Sent(calls[i].change, diff)
    decreases |calls|
  {
    if |calls| > 0 {
      var s := Apply(e, calls[0], diff);
      var rest := Run(s.engine, calls[1..], diff);
      var head := if s.attempt.Some? then [s.attempt.value] else [];
      assert Run(e, calls, diff).1 == head + rest.1;
      assert IsNotify(calls[0]);
      NotifyAttempt(e, calls[0], diff);
      NotifyOnlySendsOwnChanges(s.engine, calls[1..], diff);
      forall m | m in Run(e, calls, diff).1
        ensures exists i :: 0 <= i < |calls| && calls[i].Notify? && m == Sent(calls[i].change, diff)
      {
        if m in rest.1 {
          var j :| 0 <= j < |calls[1..]| && calls[1..][j].Notify? && m == Sent(calls[1..][j].change, diff);
          assert calls[1..][j] == calls[j + 1];
          assert 0 <= j + 1 < |calls| && calls[j + 1].Notify? && m == Sent(calls[j + 1].change, diff);
        } else {
          assert m in head;
          assert 0 < |calls| && calls[0].Notify? && m == Sent(calls[0].change, diff);
        }
      }
    }
  }

  /** The only message a notification can hand to the transport is its
      own, whether it sends at once or flushes nothing. */
  lemma NotifyAttempt(e: Engine, call: Call, diff: DiffFn)
    requires call.Notify?
    ensures Apply(e, call, diff).attempt.Some? ==> Apply(e, call, diff).attempt.value == Sent(call.change, diff)
  {
  }

  /** The message a notification sends when it is not queued. */
  function Sent(c: Change, diff: DiffFn): Message {
    ComposeMessage(c.to, c.from, c.subject, c.oldOutput, c.newOutput, c.command, diff)
  }

  /** The first two calls of CoalescedFlush: a send, then a change queued
      inside its cooldown. */
  lemma SendThenQueue(c1: Change, c2: Change, t0: int, t1: int, diff: DiffFn)
    requires (t0 as real) >= c1.cooldownMs
    requires ((t1 - t0) as real) < c2.cooldownMs
    ensures var s1 := Apply(INITIAL, Notify(c1, t0, Delivered(t0)), diff);
      s1.engine == Engine(t0, None) && s1.attempt == Some(Sent(c1, diff))
    ensures var s2 := Apply(Engine(t0, None), Notify(c2, t1, Delivered(t1)), diff);
      s2.engine == Engine(t0, Some(c2)) && s2.attempt.None?
  {
  }

  /** The last two calls of CoalescedFlush: a second change merged into
      the queue, then a flush once the cooldown has passed. */
  lemma QueueThenFlush(c2: Change, c3: Change, t0: int, t2: int, t3: int, diff: DiffFn)
    requires ((t2 - t0) as real) < c3.cooldownMs
    requires ((t3 - t0) as real) >= c2.cooldownMs
    ensures var s3 := Apply(Engine(t0, Some(c2)), Notify(c3, t2, Delivered(t2)), diff);
      s3.engine == Engine(t0, Some(c2.(newOutput := c3.newOutput))) && s3.attempt.None?
    ensures var f := Apply(Engine(t0, Some(c2.(newOutput := c3.newOutput))), Flush(t3, Delivered(t3)), diff);
      f.engine == Engine(t3, None) && f.attempt == Some(Sent(c2.(newOutput := c3.newOutput), diff))
  {
  }

  /** A send, two changes inside its cooldown, and a flush after it: two
      messages go out, the second diffing the first queued change's old
      output against the last one's new output. */
  lemma CoalescedFlush(c1: Change, c2: Change, c3: Change, t0: int, t1: int, t2: int, t3: int,
                       diff: DiffFn)
    requires (t0 as real) >= c1.cooldownMs
    requires ((t1 - t0) as real) < c2.cooldownMs && ((t2 - t0) as real) < c3.cooldownMs
    requires ((t3 - t0) as real) >= c2.cooldownMs
    ensures Run(INITIAL, [Notify(c1, t0, Delivered(t0)), Notify(c2, t1, Delivered(t1)),
                          Notify(c3, t2, Delivered(t2)), Flush(t3, Delivered(t3))], diff)
            == (Engine(t3, None), [Sent(c1, diff), Sent(c2.(newOutput := c3.newOutput), diff)])
  {
    var calls := [Notify(c1, t0, Delivered(t0)), Notify(c2, t1, Delivered(t1)),
                  Notify(c3, t2, Delivered(t2)), Flush(t3, Delivered(t3))];
    var e1 := Engine(t0, None);
    var e2 := Engine(t0, Some(c2));
    var e3 := Engine(t0, Some(c2.(newOutput := c3.newOutput)));
    SendThenQueue(c1, c2, t0, t1, diff);
    QueueThenFlush(c2, c3, t0, t2, t3, diff);
    var m1, m2 := Sent(c1, diff), Sent(c2.(newOutput := c3.newOutput), diff);
    var done := Engine(t3, None);
    RunStep(e3, calls[3..], diff);
    assert calls[3..][0] == calls[3] && calls[3..][1..] == [];
    assert Run(done, [], diff) == (done, []);
    assert [m2] + [] == [m2];
    assert Run(e3, calls[3..], diff) == (done, [m2]);
    RunStep(e2, calls[2..], diff);
    assert calls[2..][0] == calls[2] && calls[2..][1..] == calls[3..];
    assert [] + [m2] == [m2];
    assert Run(e2, calls[2..], diff) == (done, [m2]);
    RunStep(e1, calls[1..], diff);
    assert calls[1..][0] == calls[1] && calls[1..][1..] == calls[2..];
    assert Run(e1, calls[1..], diff) == (done, [m2]);
    RunStep(INITIAL, calls, diff);
    assert Run(INITIAL, calls, diff) == (done, [m1] + [m2]);
    assert [m1] + [m2] == [m1, m2];
  }

  /** The unit test of coalescing, with a 50 ms cooldown: version 1 to 2 is
      sent; 2 to 3 and 3 to 4 are queued; the later flush diffs version 2
      against version 4, so the pair involving version 3 never reaches the
      diff. */
  lemma CoalescedFlushExample(c1: Change, diff: DiffFn, t0: int)
    requires c1.cooldownMs == 50.0 && t0 >= 50
    ensures
      var c2 := c1.(oldOutput := "version 2\n", newOutput := "version 3\n");
      var c3 := c1.(oldOutput := "version 3\n", newOutput := "version 4\n");
      var r := Run(INITIAL, [Notify(c1, t0, Delivered(t0)), Notify(c2, t0 + 5, Delivered(t0 + 5)),
                             Notify(c3, t0 + 10, Delivered(t0 + 10)), Flush(t0 + 60, Delivered(t0 + 60))], diff);
      && |r.1| == 2
      && r.1[1].text == diff("version 2\n", "version 4\n", c1.command)
  {
    var c2 := c1.(oldOutput := "version 2\n", newOutput := "version 3\n");
    var c3 := c1.(oldOutput := "version 3\n", newOutput := "version 4\n");
    CoalescedFlush(c1, c2, c3, t0, t0 + 5, t0 + 10, t0 + 60, diff);
  }

  /** One step of a run, unfolded. */
  lemma RunStep(e: Engine, calls: seq<Call>, diff: DiffFn)
    requires |calls| > 0
    ensures var s := Apply(e, calls[0], diff);
      var rest := Run(s.engine, calls[1..], diff);
      Run(e, calls, diff) == (rest.0, (if s.attempt.Some? then [s.attempt.value] else []) + rest.1)
  {
  }
}
